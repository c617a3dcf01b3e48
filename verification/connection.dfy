/** Deadlines on the agent socket: src/agent_connection.rs. */
module Connection {
  import opened Outcomes
  import opened Timing

  datatype ErrorKind = TimedOut | WouldBlock | Interrupted | Other

  datatype Io<+T> = Done(value: T) | Fails(kind: ErrorKind)

  // ----- connecting -----

  /** What one poll does, `after` so many nanoseconds; the kernel reports a timeout only once the
      whole timeout has passed, and returns no later than that. */
  datatype PollEvent = Ready(after: nat, socketError: bool) | Expires | Signal(after: nat) | Refused(after: nat)

  /** A socket that is being connected, and the clock. */
  class Connecting {
    const script: nat -> PollEvent
    var polls: nat
    var now: nat

    constructor (script: nat -> PollEvent, now: nat)
      ensures this.script == script && this.now == now && this.polls == 0
    {
      this.script, this.now, this.polls := script, now, 0;
    }

    method Poll(milliseconds: nat) returns (event: PollEvent)
      requires 1 <= milliseconds <= I32_MAX
      modifies this`polls, this`now
      ensures event == script(old(polls)) && polls == old(polls) + 1
      ensures old(now) <= now <= old(now) + milliseconds * NS_PER_MS
      ensures event.Expires? ==> now == old(now) + milliseconds * NS_PER_MS
    {
      event := script(polls);
      polls := polls + 1;
      now := now + if event.Expires? then milliseconds * NS_PER_MS
                   else Least(event.after, milliseconds * NS_PER_MS);
    }
  }

  /** Returns less than a millisecond after the deadline however many signals arrive, and gives up
      less than a millisecond before it. */
  method WaitForConnect(c: Connecting, deadline: nat, ghost calm: nat) returns (r: Io<()>)
    requires forall k: nat :: k >= calm ==> !c.script(k).Signal?
    requires deadline <= c.now + 300 * NS_PER_S
    modifies c`polls, c`now
    ensures c.now < deadline + NS_PER_MS || c.now == old(c.now)
    ensures r == Fails(TimedOut) ==> deadline < c.now + NS_PER_MS
    ensures r != Fails(TimedOut) ==> c.polls > 0 && !c.script(c.polls - 1).Expires? && !c.script(c.polls - 1).Signal?
    ensures r == Done(()) <==>
            c.polls > old(c.polls) && c.script(c.polls - 1).Ready? && !c.script(c.polls - 1).socketError
  {
    while true
      invariant c.polls >= old(c.polls) && c.now >= old(c.now)
      invariant c.now < deadline + NS_PER_MS || c.now == old(c.now)
      invariant c.polls > old(c.polls) ==> c.script(c.polls - 1).Signal?
      decreases if c.polls < calm then calm - c.polls else 0
    {
      var remaining := Remaining(deadline, c.now);
      if remaining == 0 {
        return Fails(TimedOut);
      }
      PollEndsByDeadline(deadline, c.now, I32_MAX);
      PollNotEarly(deadline, c.now);
      var event := c.Poll(Milliseconds(remaining, I32_MAX));
      match event {
        case Expires => return Fails(TimedOut);
        case Signal(_) =>
        case Refused(_) => return Fails(Other);
        case Ready(_, socketError) =>
          if socketError {
            return Fails(Other);
          }
          return Done(());
      }
    }
  }

  // ----- reads and writes -----

  datatype Op = ReadOp | WriteOp | FlushOp

  /** How one operation unfolds: time passes before it, setting the timeout may fail, and the peer
      answers after `answer` nanoseconds. */
  datatype Event = Event(gap: nat, refusesTimeout: bool, answer: nat, result: Io<nat>)

  /** The socket's clock and its two timeouts. */
  datatype Link = Link(now: nat, readTimeout: Option<nat>, writeTimeout: Option<nat>)

  function TimeoutFor(l: Link, op: Op): Option<nat> {
    if op.ReadOp? then l.readTimeout else l.writeTimeout
  }

  function MapTimeout(kind: ErrorKind): ErrorKind {
    if kind.TimedOut? || kind.WouldBlock? then TimedOut else kind
  }

  /** What the bare socket does: it blocks until the answer or until its timeout. */
  function Transfer(l: Link, op: Op, e: Event): (Io<nat>, Link) {
    var limit := TimeoutFor(l, op);
    if limit.Some? && e.answer >= limit.value then (Fails(WouldBlock), l.(now := l.now + limit.value))
    else (e.result, l.(now := l.now + e.answer))
  }

  /** One operation of the stream that shares a deadline among all of them. */
  function Perform(l: Link, deadline: nat, op: Op, e: Event): (Io<nat>, Link) {
    var started := l.(now := l.now + e.gap);
    var remaining := Remaining(deadline, started.now);
    if remaining == 0 then (Fails(TimedOut), started)
    else if e.refusesTimeout then (Fails(Other), started)
    else
      var limited := if op.ReadOp? then started.(readTimeout := Some(remaining))
                     else started.(writeTimeout := Some(remaining));
      var (result, after) := Transfer(limited, op, e);
      (if result.Fails? then Fails(MapTimeout(result.kind)) else result, after)
  }

  class DeadlineStream {
    const deadline: nat
    var link: Link

    constructor (deadline: nat, now: nat)
      ensures this.deadline == deadline && this.link == Link(now, None, None)
    {
      this.deadline, this.link := deadline, Link(now, None, None);
    }

    /** The time that is left, or the timeout error. */
    method TimeLeft(e: Event) returns (r: Io<nat>)
      modifies this`link
      ensures link == old(link).(now := old(link).now + e.gap)
      ensures r == if Remaining(deadline, link.now) == 0 then Fails(TimedOut) else Done(Remaining(deadline, link.now))
    {
      link := link.(now := link.now + e.gap);
      var remaining := Remaining(deadline, link.now);
      if remaining == 0 {
        return Fails(TimedOut);
      }
      return Done(remaining);
    }

    method Read(e: Event) returns (r: Io<nat>)
      modifies this`link
      ensures (r, link) == Perform(old(link), deadline, ReadOp, e)
    {
      var left := TimeLeft(e);
      if left.Fails? { return left; }
      if e.refusesTimeout { return Fails(Other); }
      link := link.(readTimeout := Some(left.value));
      var (result, after) := Transfer(link, ReadOp, e);
      link := after;
      return if result.Fails? then Fails(MapTimeout(result.kind)) else result;
    }

    method Write(e: Event) returns (r: Io<nat>)
      modifies this`link
      ensures (r, link) == Perform(old(link), deadline, WriteOp, e)
    {
      var left := TimeLeft(e);
      if left.Fails? { return left; }
      if e.refusesTimeout { return Fails(Other); }
      link := link.(writeTimeout := Some(left.value));
      var (result, after) := Transfer(link, WriteOp, e);
      link := after;
      return if result.Fails? then Fails(MapTimeout(result.kind)) else result;
    }

    method Flush(e: Event) returns (r: Io<nat>)
      modifies this`link
      ensures (r, link) == Perform(old(link), deadline, FlushOp, e)
    {
      var left := TimeLeft(e);
      if left.Fails? { return left; }
      if e.refusesTimeout { return Fails(Other); }
      link := link.(writeTimeout := Some(left.value));
      var (result, after) := Transfer(link, FlushOp, e);
      link := after;
      return if result.Fails? then Fails(MapTimeout(result.kind)) else result;
    }
  }

  // ----- whole sessions -----

  datatype Call = Call(op: Op, event: Event)

  /** What was seen of one call: when it started, when it ended and its result. */
  datatype Record = Record(start: nat, end: nat, result: Io<nat>)

  function Session(l: Link, deadline: nat, calls: seq<Call>): (r: seq<Record>)
    ensures |r| == |calls|
    decreases |calls|
  {
    if calls == [] then []
    else
      var (result, after) := Perform(l, deadline, calls[0].op, calls[0].event);
      [Record(l.now + calls[0].event.gap, after.now, result)] + Session(after, deadline, calls[1..])
  }

  function Blocked(records: seq<Record>): int
    decreases |records|
  {
    if records == [] then 0 else records[0].end - records[0].start + Blocked(records[1..])
  }

  /** One operation, exactly: it ends by the deadline or times out at once, waits as long as is left and
      no longer, reports that it would block as a timeout and leaves other errors as they are. */
  lemma PerformWithinDeadline(l: Link, deadline: nat, op: Op, e: Event)
    ensures var (r, after) := Perform(l, deadline, op, e);
            var start := l.now + e.gap;
            && start <= after.now
            && (start < deadline ==> after.now <= deadline)
            && (start >= deadline ==> r == Fails(TimedOut) && after.now == start)
            && r != Fails(WouldBlock)
            && (e.answer >= deadline - start && !e.refusesTimeout ==> r == Fails(TimedOut))
            && (e.answer < deadline - start && !e.refusesTimeout ==>
                  r == match e.result
                       case Done(n) => Done(n)
                       case Fails(kind) => Fails(if kind == WouldBlock then TimedOut else kind))
            && (start < deadline && e.refusesTimeout ==> r == Fails(Other) && after.now == start)
            && (start < deadline && !e.refusesTimeout ==>
                  if op == ReadOp
                  then after.readTimeout == Some(deadline - start) && after.writeTimeout == l.writeTimeout
                  else after.writeTimeout == Some(deadline - start) && after.readTimeout == l.readTimeout)
  {
  }

  /** A record of a call that kept to the deadline. */
  predicate Kept(r: Record, from: nat, deadline: nat) {
    && from <= r.start <= r.end
    && (r.start < deadline ==> r.end <= deadline)
    && (r.start >= deadline ==> r.result == Fails(TimedOut) && r.end == r.start)
  }

  /** However many calls are made and however little each transfers, every one starts after the one
      before it ends and keeps to the deadline, all blocking together fits before the deadline, and
      every call from then on reports a timeout. */
  lemma {:induction false} SessionKeepsDeadline(l: Link, deadline: nat, calls: seq<Call>)
    ensures var r := Session(l, deadline, calls);
            && (forall i :: 0 <= i < |r| ==> Kept(r[i], l.now, deadline))
            && (forall i, j :: 0 <= i < j < |r| ==> r[i].end <= r[j].start)
            && 0 <= Blocked(r) <= Remaining(deadline, l.now)
    decreases |calls|
  {
    if calls != [] {
      var (result, after) := Perform(l, deadline, calls[0].op, calls[0].event);
      SessionKeepsDeadline(after, deadline, calls[1..]);
      var first := Record(l.now + calls[0].event.gap, after.now, result);
      assert Kept(first, l.now, deadline) by {
        PerformWithinDeadline(l, deadline, calls[0].op, calls[0].event);
      }
      var rest := Session(after, deadline, calls[1..]);
      assert Session(l, deadline, calls) == [first] + rest;
      SessionStep(l.now, first, rest, deadline);
    }
  }

  lemma SessionStep(from: nat, first: Record, rest: seq<Record>, deadline: nat)
    requires Kept(first, from, deadline)
    requires forall i :: 0 <= i < |rest| ==> Kept(rest[i], first.end, deadline)
    requires forall i, j :: 0 <= i < j < |rest| ==> rest[i].end <= rest[j].start
    requires 0 <= Blocked(rest) <= Remaining(deadline, first.end)
    ensures var r := [first] + rest;
            && (forall i :: 0 <= i < |r| ==> Kept(r[i], from, deadline))
            && (forall i, j :: 0 <= i < j < |r| ==> r[i].end <= r[j].start)
            && 0 <= Blocked(r) <= Remaining(deadline, from)
  {
    var r := [first] + rest;
    assert r[1..] == rest;
    forall i | 0 <= i < |r| ensures Kept(r[i], from, deadline) {
      assert i > 0 ==> r[i] == rest[i - 1] && Kept(rest[i - 1], first.end, deadline);
    }
    forall i, j | 0 <= i < j < |r| ensures r[i].end <= r[j].start {
      assert r[j] == rest[j - 1] && Kept(rest[j - 1], first.end, deadline);
      assert i > 0 ==> r[i] == rest[i - 1];
    }
  }
}
