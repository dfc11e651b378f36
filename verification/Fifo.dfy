/** The FIFO queueing discipline: a bounded list of packets beside a length and a byte count that the
    program keeps by hand. */
module Fifo {
  import opened Words

  const FIFO_LIMIT: u32 := 1000

  datatype Packet = Packet(id: nat, len: u32)

  datatype State = State(queue: seq<Packet>, qlen: u32, limit: u32, backlog: u32)

  // ----- the operations -----

  /** The queue after an arrival, and whether it was taken in; node says whether a list node was to be had. */
  function Enqueued(s: State, p: Packet, node: bool): (r: (State, bool)) {
    if s.qlen == s.limit || !node then (s, false)
    else (s.(queue := s.queue + [p], qlen := Wrap32(s.qlen + 1), backlog := Wrap32(s.backlog + p.len)), true)
  }

  function Dequeued(s: State): (r: (State, Option<Packet>)) {
    if s.queue == [] then (s, None)
    else
      var p := s.queue[0];
      (s.(queue := s.queue[1..], qlen := Wrap32(s.qlen - 1), backlog := Wrap32(s.backlog - p.len)), Some(p))
  }

  /** Frees as many packets as the length says; the byte count is left alone. */
  function ResetTo(s: State): (r: (State, seq<Packet>)) {
    var n := if s.qlen < |s.queue| then s.qlen else |s.queue|;
    (s.(queue := s.queue[n..], qlen := 0), s.queue[..n])
  }

  /** The discipline, updated in place. */
  class FifoQdisc {
    var queue: seq<Packet>
    var qlen: u32
    var limit: u32
    var backlog: u32

    function View(): (s: State)
      reads this
    {
      State(queue, qlen, limit, backlog)
    }

    constructor ()
      ensures View() == State([], 0, FIFO_LIMIT, 0)
    {
      queue, qlen, limit, backlog := [], 0, FIFO_LIMIT, 0;
    }

    method Enqueue(p: Packet, node: bool) returns (taken: bool)
      modifies this
      ensures (View(), taken) == Enqueued(old(View()), p, node)
    {
      if qlen == limit { return false; }
      if !node { return false; }
      qlen := Wrap32(qlen + 1);
      queue := queue + [p];
      backlog := Wrap32(backlog + p.len);
      return true;
    }

    method Dequeue() returns (p: Option<Packet>)
      modifies this
      ensures (View(), p) == Dequeued(old(View()))
    {
      if queue == [] { return None; }
      var front := queue[0];
      queue := queue[1..];
      backlog := Wrap32(backlog - front.len);
      qlen := Wrap32(qlen - 1);
      return Some(front);
    }

    method Reset() returns (freed: seq<Packet>)
      modifies this
      ensures (View(), freed) == ResetTo(old(View()))
    {
      freed := [];
      var i := 0;
      while i < qlen
        invariant 0 <= i <= qlen && i <= |old(queue)|
        invariant freed == old(queue)[..i] && queue == old(queue)[i..]
        invariant qlen == old(qlen) && limit == old(limit) && backlog == old(backlog)
      {
        if queue == [] { break; }
        freed := freed + [queue[0]];
        queue := queue[1..];
        i := i + 1;
      }
      qlen := 0;
    }
  }

  // ----- histories -----

  datatype Event = Arrival(p: Packet, node: bool) | Departure | Clear

  /** What became of every packet so far, in order; left holds those delivered or freed, in the order
      they left, and accepted those taken in. */
  datatype Log = Log(arrived: seq<Packet>, dropped: seq<Packet>, delivered: seq<Packet>, freed: seq<Packet>,
                     accepted: seq<Packet>, left: seq<Packet>)

  function Happens(s: State, log: Log, e: Event): (r: (State, Log)) {
    match e
    case Arrival(p, node) =>
      var (s', taken) := Enqueued(s, p, node);
      var log1 := log.(arrived := log.arrived + [p]);
      (s', if taken then log1.(accepted := log.accepted + [p]) else log1.(dropped := log.dropped + [p]))
    case Departure =>
      var (s', p) := Dequeued(s);
      (s', if p.None? then log else log.(delivered := log.delivered + [p.value], left := log.left + [p.value]))
    case Clear =>
      var (s', ps) := ResetTo(s);
      (s', log.(freed := log.freed + ps, left := log.left + ps))
  }

  function Run(s: State, log: Log, es: seq<Event>): (r: (State, Log))
    decreases |es|
  {
    if es == [] then (s, log) else var (s1, log1) := Happens(s, log, es[0]); Run(s1, log1, es[1..])
  }

  function Bytes(ps: seq<Packet>): (n: nat) {
    if ps == [] then 0 else Bytes(ps[..|ps| - 1]) + ps[|ps| - 1].len
  }

  lemma {:induction false} BytesSplit(a: seq<Packet>, b: seq<Packet>)
    ensures Bytes(a + b) == Bytes(a) + Bytes(b)
    decreases |b|
  {
    if b == [] {
      assert a + b == a;
    } else {
      assert (a + b)[..|a + b| - 1] == a + b[..|b| - 1];
      BytesSplit(a, b[..|b| - 1]);
    }
  }

  /** The length is right and within the limit; packets leave in the order they were taken in; every
      packet is in exactly one place; and the byte count, modulo 2^32, is that of the queued packets plus
      that of all packets ever freed by a reset. */
  ghost predicate Inv(s: State, log: Log) {
    && s.qlen == |s.queue| <= s.limit
    && log.accepted == log.left + s.queue
    && Accounted(log)
    && s.backlog == Wrap32(Bytes(s.queue) + Bytes(log.freed))
  }

  /** Arrivals were accepted or dropped, and what left was delivered or freed. */
  ghost predicate Accounted(log: Log) {
    && multiset(log.arrived) == multiset(log.accepted) + multiset(log.dropped)
    && multiset(log.left) == multiset(log.delivered) + multiset(log.freed)
  }

  lemma ArrivalAccounted(log: Log, p: Packet)
    requires Accounted(log)
    ensures Accounted(log.(arrived := log.arrived + [p], accepted := log.accepted + [p]))
    ensures Accounted(log.(arrived := log.arrived + [p], dropped := log.dropped + [p]))
  {
  }

  lemma WrapSum(x: int, y: int)
    ensures Wrap32(Wrap32(x) + y) == Wrap32(x + y) && Wrap32(Wrap32(x) - y) == Wrap32(x - y)
  {
    WrapStep(x, y);
    WrapStep(x, -y);
  }

  lemma WrapStep(x: int, y: int)
    ensures Wrap32(Wrap32(x) + y) == Wrap32(x + y)
  {
    var q, p := x / TWO32, (x + y) / TWO32;
    ModUnique(Wrap32(x) + y, TWO32, p - q, Wrap32(x + y));
  }

  lemma ArrivalKeeps(s: State, log: Log, p: Packet, node: bool)
    requires Inv(s, log)
    ensures var (s', log') := Happens(s, log, Arrival(p, node)); Inv(s', log') && s'.limit == s.limit
  {
    hide Bytes, Wrap32, Accounted;
    ArrivalAccounted(log, p);
    if !(s.qlen == s.limit || !node) {
      WrapExact(s.qlen + 1);
      BytesSplit(s.queue, [p]);
      OnePacket(p);
      WrapSum(Bytes(s.queue) + Bytes(log.freed), p.len);
      assert log.accepted + [p] == log.left + (s.queue + [p]);
    }
  }

  lemma DepartureKeeps(s: State, log: Log)
    requires Inv(s, log)
    ensures var (s', log') := Happens(s, log, Departure); Inv(s', log') && s'.limit == s.limit
  {
    hide Bytes, Wrap32;
    if s.queue != [] {
      var p := s.queue[0];
      WrapExact(s.qlen - 1);
      assert s.queue == [p] + s.queue[1..];
      BytesSplit([p], s.queue[1..]);
      OnePacket(p);
      WrapSum(Bytes(s.queue) + Bytes(log.freed), p.len);
      assert log.left + s.queue == log.left + [p] + s.queue[1..];
    }
  }

  lemma ClearKeeps(s: State, log: Log)
    requires Inv(s, log)
    ensures var (s', log') := Happens(s, log, Clear); Inv(s', log') && s'.limit == s.limit
  {
    hide Bytes, Wrap32;
    assert s.queue[|s.queue|..] == [] && s.queue[..|s.queue|] == s.queue;
    BytesSplit(log.freed, s.queue);
    NoBytes();
    assert log.left + s.queue + [] == log.left + s.queue;
  }

  lemma HappensKeeps(s: State, log: Log, e: Event)
    requires Inv(s, log)
    ensures var (s', log') := Happens(s, log, e); Inv(s', log') && s'.limit == s.limit
  {
    hide Inv, Happens;
    match e
    case Arrival(p, node) => ArrivalKeeps(s, log, p, node);
    case Departure => DepartureKeeps(s, log);
    case Clear => ClearKeeps(s, log);
  }

  lemma OnePacket(p: Packet)
    ensures Bytes([p]) == p.len
  {
    assert [p][..0] == [];
  }

  lemma NoBytes()
    ensures Bytes([]) == 0
  {
  }

  /** From an initialised empty queue, over any history. */
  lemma {:induction false} RunKeeps(s: State, log: Log, es: seq<Event>)
    requires Inv(s, log)
    ensures Inv(Run(s, log, es).0, Run(s, log, es).1) && Run(s, log, es).0.limit == s.limit
    decreases |es|
  {
    hide Inv, Happens;
    if es != [] {
      HappensKeeps(s, log, es[0]);
      var (s1, log1) := Happens(s, log, es[0]);
      RunKeeps(s1, log1, es[1..]);
    }
  }

  const NOTHING_YET := Log([], [], [], [], [], [])

  /** The queue never exceeds its limit, delivers first come first served, and loses no packet. */
  lemma FifoIsFaithful(es: seq<Event>)
    ensures var (s, log) := Run(State([], 0, FIFO_LIMIT, 0), NOTHING_YET, es);
            && s.qlen == |s.queue| <= FIFO_LIMIT
            && log.accepted == log.left + s.queue
            && multiset(log.arrived)
                 == multiset(s.queue) + multiset(log.dropped) + multiset(log.delivered) + multiset(log.freed)
  {
    hide Run, Bytes, Wrap32;
    InitialInv();
    RunKeeps(State([], 0, FIFO_LIMIT, 0), NOTHING_YET, es);
  }

  /** After any history: an arrival is refused exactly when there is no list node or 1000 packets wait, and then
      nothing changes; otherwise it goes to the back. A departure takes the packet in front, unless there is
      none. A reset frees all packets. */
  lemma EventsAre(es: seq<Event>, p: Packet, node: bool)
    ensures var s := Run(State([], 0, FIFO_LIMIT, 0), NOTHING_YET, es).0;
            && (Enqueued(s, p, node).1 <==> node && |s.queue| < 1000)
            && (if node && |s.queue| < 1000 then Enqueued(s, p, node).0.queue == s.queue + [p]
                else Enqueued(s, p, node).0 == s)
            && (Dequeued(s).1.None? <==> s.queue == []) && (s.queue == [] ==> Dequeued(s).0 == s)
            && (s.queue != [] ==> Dequeued(s).1 == Some(s.queue[0]) && Dequeued(s).0.queue == s.queue[1..])
            && ResetTo(s).0.queue == [] && ResetTo(s).1 == s.queue
  {
    hide Run, Bytes, Wrap32, Accounted;
    InitialInv();
    RunKeeps(State([], 0, FIFO_LIMIT, 0), NOTHING_YET, es);
    var s := Run(State([], 0, FIFO_LIMIT, 0), NOTHING_YET, es).0;
    assert s.queue[..|s.queue|] == s.queue;
  }

  lemma InitialInv()
    ensures Inv(State([], 0, FIFO_LIMIT, 0), NOTHING_YET)
  {
  }

  /** The byte count is that of the queued packets, modulo 2^32, exactly when the packets freed by resets
      so far add up to zero modulo 2^32. */
  lemma BacklogRightIff(es: seq<Event>)
    ensures var (s, log) := Run(State([], 0, FIFO_LIMIT, 0), NOTHING_YET, es);
            s.backlog == Wrap32(Bytes(s.queue)) <==> Wrap32(Bytes(log.freed)) == 0
  {
    hide Run, Bytes, Wrap32, Accounted;
    InitialInv();
    RunKeeps(State([], 0, FIFO_LIMIT, 0), NOTHING_YET, es);
    var (s, log) := Run(State([], 0, FIFO_LIMIT, 0), NOTHING_YET, es);
    WrapEqualIff(Bytes(s.queue), Bytes(log.freed));
  }

  lemma WrapEqualIff(x: nat, y: nat)
    ensures Wrap32(x + y) == Wrap32(x) <==> Wrap32(y) == 0
  {
    WrapSum(x, y);
  }

  /** So a reset of a queue that holds bytes leaves a byte count that no longer matches the queue. */
  lemma ResetLeavesBacklog(s: State)
    requires s.qlen == |s.queue| && s.backlog == Wrap32(Bytes(s.queue))
    ensures var s' := ResetTo(s).0;
            s'.queue == [] && (s'.backlog == Wrap32(Bytes(s'.queue)) <==> Wrap32(Bytes(s.queue)) == 0)
  {
    NoBytes();
  }

  /** One packet of 60 bytes, then a reset: the queue is empty and 60 bytes are still counted. */
  lemma OnePacketCleared()
    ensures var es := [Arrival(Packet(1, 60), true), Clear];
            var s := Run(State([], 0, FIFO_LIMIT, 0), NOTHING_YET, es).0;
            s.queue == [] && s.backlog == 60 && s.backlog != Wrap32(Bytes(s.queue))
  {
    var es := [Arrival(Packet(1, 60), true), Clear];
    var s0 := State([], 0, FIFO_LIMIT, 0);
    var (s1, log1) := Happens(s0, NOTHING_YET, es[0]);
    assert s1 == State([Packet(1, 60)], 1, FIFO_LIMIT, 60);
    var (s2, log2) := Happens(s1, log1, es[1]);
    assert es[1..] == [Clear] && es[1..][1..] == [];
    assert Run(s1, log1, es[1..]) == Run(s2, log2, []) == (s2, log2);
  }
}
