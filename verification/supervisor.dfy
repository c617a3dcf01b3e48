/** The helper supervisor: src/cmd.rs, run_inner and what it calls. */
module Supervisor {
  import opened Outcomes
  import opened Utf8
  import opened Timing
  import opened Trimming

  const MAX_OUTPUT_BYTES: nat := 1024 * 1024
  const CHUNK: nat := 8192

  // ----- the operating system's side -----

  datatype Stream = Stdout | Stderr

  /** What a read does: deliver up to so many bytes, or nothing yet, or a signal, or an error. */
  datatype ReadEvent = Deliver(count: nat) | NotReady | Interrupted | Broken

  datatype WaitEvent = StillRunning | Exits | Lost

  datatype PollEvent = Wakes | Signalled | Refused

  datatype Tick = Tick(read: ReadEvent, wait: WaitEvent, poll: PollEvent)

  datatype Exit = Code(code: int) | Signal {
    predicate Success() {
      this == Code(0)
    }
  }

  datatype ReadResult = Got(bytes: Bytes) | WouldBlock | Retry | Failed

  /** A helper process and everything that decides how its run unfolds.  What is written to the
      pipes, by it or by its descendants, and its exit status are fixed; when anything happens is
      up to `script` and `clock`, one entry per system call. */
  class Helper {
    const stdout: Bytes
    const stderr: Bytes
    const exit: Exit
    const script: nat -> Tick
    const clock: nat -> nat
    const spawns: bool
    const setsUp: bool

    var tick: nat
    var outTaken: nat
    var errTaken: nat
    var outReads: nat
    var errReads: nat
    var reaped: bool
    var terminations: nat
    var asked: seq<nat>

    constructor (stdout: Bytes, stderr: Bytes, exit: Exit, script: nat -> Tick, clock: nat -> nat,
                 spawns: bool, setsUp: bool)
      ensures this.stdout == stdout && this.stderr == stderr && this.exit == exit
      ensures this.script == script && this.clock == clock && this.spawns == spawns && this.setsUp == setsUp
      ensures Untouched()
    {
      this.stdout, this.stderr, this.exit := stdout, stderr, exit;
      this.script, this.clock, this.spawns, this.setsUp := script, clock, spawns, setsUp;
      tick, outTaken, errTaken, outReads, errReads, reaped, terminations := 0, 0, 0, 0, 0, false, 0;
      asked := [];
    }

    predicate Untouched()
      reads this
    {
      outTaken == errTaken == outReads == errReads == terminations == 0 && !reaped
    }

    function Contents(s: Stream): Bytes {
      if s.Stdout? then stdout else stderr
    }

    function Taken(s: Stream): nat
      reads this
    {
      if s.Stdout? then outTaken else errTaken
    }

    function DataReads(s: Stream): nat
      reads this
    {
      if s.Stdout? then outReads else errReads
    }

    ghost predicate Monotone() {
      forall s: nat, t: nat :: s <= t ==> clock(s) <= clock(t)
    }

    /** Time does not run backwards and passes every bound; signals stop at some point. */
    ghost predicate Progresses() {
      && Monotone()
      && (forall bound: nat :: Outlasted(bound))
    }

    ghost predicate Outlasted(bound: nat) {
      exists horizon: nat :: Settled(horizon, bound)
    }

    ghost predicate Settled(horizon: nat, bound: nat) {
      forall t: nat :: t >= horizon ==>
        clock(t) >= bound && script(t).read != Interrupted && script(t).poll != Signalled
    }

    method Now() returns (time: nat)
      modifies this`tick
      ensures time == clock(old(tick)) && tick == old(tick) + 1
    {
      time := clock(tick);
      tick := tick + 1;
    }

    /** A non-blocking read of at most CHUNK bytes; the empty result is end of file. */
    method Read(s: Stream) returns (r: ReadResult)
      requires Taken(s) <= |Contents(s)|
      modifies this`tick, this`outTaken, this`errTaken, this`outReads, this`errReads
      ensures tick == old(tick) + 1
      ensures old(Taken(s)) <= Taken(s) <= |Contents(s)|
      ensures r.Got? ==> |r.bytes| <= CHUNK && r.bytes == Contents(s)[old(Taken(s))..Taken(s)]
      ensures r.Got? && r.bytes == "" ==> Taken(s) == |Contents(s)|
      ensures !r.Got? ==> Taken(s) == old(Taken(s))
      ensures r.WouldBlock? ==> script(old(tick)).read == NotReady
      ensures r.Retry? ==> script(old(tick)).read == Interrupted
      ensures r.Failed? ==> script(old(tick)).read == Broken
      ensures DataReads(s) == old(DataReads(s)) + (if r.Got? && r.bytes != "" then 1 else 0)
      ensures forall o: Stream :: o != s ==> Taken(o) == old(Taken(o)) && DataReads(o) == old(DataReads(o))
    {
      var event := script(tick).read;
      tick := tick + 1;
      match event {
        case NotReady => return WouldBlock;
        case Interrupted => return Retry;
        case Broken => return Failed;
        case Deliver(count) =>
          var from := Taken(s);
          var n := Least(Least(if count == 0 then 1 else count, CHUNK), |Contents(s)| - from);
          if s.Stdout? {
            outTaken := from + n;
            outReads := outReads + if n > 0 then 1 else 0;
          } else {
            errTaken := from + n;
            errReads := errReads + if n > 0 then 1 else 0;
          }
          return Got(Contents(s)[from..from + n]);
      }
    }

    method TryWait() returns (r: Result<Option<Exit>, ()>)
      requires !reaped
      modifies this`tick, this`reaped
      ensures tick == old(tick) + 1
      ensures reaped == (r == Ok(Some(exit)))
      ensures r == match script(old(tick)).wait
                   case StillRunning => Ok(None)
                   case Exits => Ok(Some(exit))
                   case Lost => Err(())
    {
      var event := script(tick).wait;
      tick := tick + 1;
      match event {
        case StillRunning => return Ok(None);
        case Lost => return Err(());
        case Exits =>
          reaped := true;
          return Ok(Some(exit));
      }
    }

    /** `asked` keeps the timeouts. */
    method Poll(milliseconds: nat) returns (event: PollEvent)
      requires 1 <= milliseconds <= I32_MAX
      modifies this`tick, this`asked
      ensures event == script(old(tick)).poll && tick == old(tick) + 1
      ensures asked == old(asked) + [milliseconds]
    {
      event := script(tick).poll;
      tick := tick + 1;
      asked := asked + [milliseconds];
    }

    /** Kills the process group and the child, then waits for the child. */
    method TerminateAndReap()
      modifies this`reaped, this`terminations
      ensures reaped && terminations == old(terminations) + 1
    {
      reaped := true;
      terminations := terminations + 1;
    }
  }

  // ----- the code -----

  datatype Failure = EmptyCommand | NotAbsolute | SpawnFailed | SetupFailed | ReadFailed | WaitFailed
                   | PollFailed | TimedOut | OutputLimit | NonZeroExit(exit: Exit) | NotUtf8 | StatusNotCollected

  /** The outcome that the helper's own behaviour calls for, with no schedule in it. */
  function Verdict(stdout: Bytes, stderr: Bytes, exit: Exit): Result<Bytes, Failure> {
    if |stdout| > MAX_OUTPUT_BYTES || |stderr| > MAX_OUTPUT_BYTES then Err(OutputLimit)
    else if !exit.Success() then Err(NonZeroExit(exit))
    else if !Valid(stderr) || !Valid(stdout) then Err(NotUtf8)
    else Ok(TrimEnd(stdout))
  }

  predicate FromOutside(f: Failure) {
    f.SetupFailed? || f.ReadFailed? || f.WaitFailed? || f.PollFailed? || f.TimedOut?
  }

  /** The last system call of the run is what an outside failure is blamed on. */
  predicate Blamed(h: Helper, f: Failure, deadline: nat)
    reads h
  {
    match f
    case SetupFailed => !h.setsUp
    case ReadFailed => h.tick > 0 && h.script(h.tick - 1).read == Broken
    case WaitFailed => h.tick > 0 && h.script(h.tick - 1).wait == Lost
    case PollFailed => h.tick > 0 && h.script(h.tick - 1).poll == Refused
    case TimedOut => h.tick > 0 && h.clock(h.tick - 1) >= deadline
    case _ => true
  }

  /** What was kept of a stream is what was taken from it, within the limit. */
  predicate Collected(h: Helper, s: Stream, bytes: Bytes, eof: bool)
    reads h
  {
    && h.Taken(s) <= |h.Contents(s)|
    && bytes == h.Contents(s)[..h.Taken(s)]
    && |bytes| <= MAX_OUTPUT_BYTES
    && h.DataReads(s) <= |bytes|
    && (eof ==> h.Taken(s) == |h.Contents(s)|)
  }

  method DrainOutput(h: Helper, s: Stream, output: Bytes, eof: bool, ghost horizon: nat, ghost bound: nat)
    returns (output': Bytes, eof': bool, failure: Option<Failure>)
    requires Collected(h, s, output, eof) && h.Settled(horizon, bound)
    modifies h`tick, h`outTaken, h`errTaken, h`outReads, h`errReads
    ensures h.tick > old(h.tick)
    ensures failure.None? ==> Collected(h, s, output', eof')
    ensures failure.Some? ==>
              ((failure.value == ReadFailed && Blamed(h, ReadFailed, bound)) ||
               (failure.value == OutputLimit && |h.Contents(s)| > MAX_OUTPUT_BYTES))
    ensures failure.None? && !eof' ==> h.script(h.tick - 1).read == NotReady
    ensures h.DataReads(s) <= MAX_OUTPUT_BYTES + 1
    ensures forall o: Stream :: o != s ==> h.Taken(o) == old(h.Taken(o)) && h.DataReads(o) == old(h.DataReads(o))
  {
    output', eof' := output, eof;
    var done := false;
    while !done
      invariant h.tick >= old(h.tick) && (done ==> h.tick > old(h.tick))
      invariant done && !eof' ==> h.script(h.tick - 1).read == NotReady
      invariant Collected(h, s, output', eof')
      invariant forall o: Stream :: o != s ==> h.Taken(o) == old(h.Taken(o)) && h.DataReads(o) == old(h.DataReads(o))
      decreases !done, if h.tick < horizon then horizon - h.tick else 0, MAX_OUTPUT_BYTES + 1 - |output'|
    {
      var chunk := h.Read(s);
      match chunk {
        case Got(bytes) =>
          if bytes == "" {
            eof' := true;
            done := true;
          } else if |output'| + |bytes| > MAX_OUTPUT_BYTES {
            return output', eof', Some(OutputLimit);
          } else {
            output' := output' + bytes;
          }
        case WouldBlock => done := true;
        case Retry =>
        case Failed => return output', eof', Some(ReadFailed);
      }
    }
    failure := None;
  }

  /** The i-th poll of a wait that began at `from` was given `ms`: the whole milliseconds that remained
      when the clock was read for it, but at least 1 and at most `cap`. */
  ghost predicate Given(h: Helper, from: nat, i: nat, ms: nat, deadline: nat, cap: nat) {
    var remaining := deadline - h.clock(from + 2 * i);
    && remaining > 0 && 1 <= ms <= cap
    && (ms == 1 || ms * 1_000_000 <= remaining)
    && (ms == cap || remaining < (ms + 1) * 1_000_000)
  }

  ghost predicate InterruptedPoll(h: Helper, from: nat, i: nat) {
    h.script(from + 2 * i + 1).poll == Signalled
  }

  /** A wait: clock and poll in turn, every poll but the last interrupted by a signal, until the
      deadline has passed or the last poll wakes or fails. */
  ghost predicate Waited(h: Helper, asked: seq<nat>, from: nat, to: nat, ok: bool, deadline: nat, cap: nat) {
    && (forall i :: 0 <= i < |asked| ==> Given(h, from, i, asked[i], deadline, cap))
    && (forall i :: 0 <= i < |asked| - 1 ==> InterruptedPoll(h, from, i))
    && if to == from + 2 * |asked| + 1
       then ok && h.clock(to - 1) >= deadline && (asked != [] ==> InterruptedPoll(h, from, |asked| - 1))
       else asked != [] && to == from + 2 * |asked| && h.script(to - 1).poll == if ok then Wakes else Refused
  }

  /** Every poll of the wait returns within the timeout it was given, counted from the reading of the
      clock before it. */
  ghost predicate HonestPolls(h: Helper, asked: seq<nat>, from: nat) {
    forall i :: 0 <= i < |asked| ==> h.clock(from + 2 * i + 2) <= h.clock(from + 2 * i) + asked[i] * NS_PER_MS
  }

  /** A wait that begins before the deadline is over less than a millisecond after it. */
  lemma WaitEndsInTime(h: Helper, asked: seq<nat>, from: nat, to: nat, ok: bool, deadline: nat, cap: nat)
    requires Waited(h, asked, from, to, ok, deadline, cap)
    requires h.clock(from) < deadline && HonestPolls(h, asked, from)
    ensures h.clock(from + 2 * |asked|) < deadline + NS_PER_MS
  {
    if asked != [] {
      var last := |asked| - 1;
      assert Given(h, from, last, asked[last], deadline, cap);
    }
  }

  /** Waits for output, for 10 ms at most once both streams have ended.  However many signals
      interrupt it, the wait is over less than a millisecond after the deadline. */
  method WaitForOutput(h: Helper, stdoutEof: bool, stderrEof: bool, deadline: nat, ghost horizon: nat)
    returns (ok: bool, ghost asked: seq<nat>)
    requires h.Settled(horizon, deadline)
    modifies h`tick, h`asked
    ensures h.asked == old(h.asked) + asked && h.tick > old(h.tick)
    ensures Waited(h, asked, old(h.tick), h.tick, ok, deadline, if stdoutEof && stderrEof then 10 else 0x7FFF_FFFF)
    ensures !ok ==> Blamed(h, PollFailed, deadline)
    ensures h.clock(old(h.tick)) < deadline && HonestPolls(h, asked, old(h.tick))
            ==> h.clock(old(h.tick) + 2 * |asked|) < deadline + NS_PER_MS
    ensures h.clock(old(h.tick)) >= deadline ==> ok && h.tick == old(h.tick) + 1
  {
    var noOpenStreams := stdoutEof && stderrEof;
    var cap := if noOpenStreams then 10 else I32_MAX;
    ok, asked := WaitLoop(h, cap, deadline, horizon);
    assert asked != [] ==> Given(h, old(h.tick), 0, asked[0], deadline, cap);
    if h.clock(old(h.tick)) < deadline && HonestPolls(h, asked, old(h.tick)) {
      WaitEndsInTime(h, asked, old(h.tick), h.tick, ok, deadline, cap);
    }
  }

  method WaitLoop(h: Helper, cap: nat, deadline: nat, ghost horizon: nat) returns (ok: bool, ghost asked: seq<nat>)
    requires h.Settled(horizon, deadline) && 1 <= cap <= I32_MAX
    modifies h`tick, h`asked
    ensures h.asked == old(h.asked) + asked
    ensures Waited(h, asked, old(h.tick), h.tick, ok, deadline, cap)
  {
    asked := [];
    while true
      invariant h.asked == old(h.asked) + asked && h.tick == old(h.tick) + 2 * |asked|
      invariant forall i :: 0 <= i < |asked| ==> Given(h, old(h.tick), i, asked[i], deadline, cap)
      invariant forall i :: 0 <= i < |asked| ==> InterruptedPoll(h, old(h.tick), i)
      decreases if h.tick < horizon then horizon - h.tick else 0
    {
      var now := h.Now();
      if Remaining(deadline, now) == 0 {
        return true, asked;
      }
      var milliseconds := Milliseconds(Remaining(deadline, now), cap);
      assert Given(h, old(h.tick), |asked|, milliseconds, deadline, cap);
      var event := h.Poll(milliseconds);
      asked := asked + [milliseconds];
      match event {
        case Wakes => return true, asked;
        case Refused => return false, asked;
        case Signalled => assert InterruptedPoll(h, old(h.tick), |asked| - 1);
      }
    }
  }

  predicate LoopState(h: Helper, stdoutBytes: Bytes, stdoutEof: bool, stderrBytes: Bytes, stderrEof: bool,
                      status: Option<Exit>)
    reads h
  {
    && Collected(h, Stdout, stdoutBytes, stdoutEof) && Collected(h, Stderr, stderrBytes, stderrEof)
    && (h.reaped <==> status.Some?) && (status.Some? ==> status.value == h.exit)
    && h.terminations == 0
  }

  /** The child is over, and so is the output once what there is has been read. */
  ghost predicate Prompt(h: Helper) {
    forall t: nat :: h.script(t).wait == Exits && h.script(t).read != NotReady
  }

  predicate ReadsBounded(h: Helper)
    reads h
  {
    h.outReads <= MAX_OUTPUT_BYTES + 1 && h.errReads <= MAX_OUTPUT_BYTES + 1
  }

  /** The run was stopped from here: terminated once, for a reason. */
  predicate Stopped(h: Helper, f: Failure, deadline: nat)
    reads h
  {
    && h.reaped && h.terminations == 1
    && ((FromOutside(f) && Blamed(h, f, deadline)) ||
        (f == OutputLimit && (|h.stdout| > MAX_OUTPUT_BYTES || |h.stderr| > MAX_OUTPUT_BYTES)))
  }

  /** Drains both pipes, and stops the run when either fails. */
  method DrainBoth(h: Helper, stdoutBytes: Bytes, stdoutEof: bool, stderrBytes: Bytes, stderrEof: bool,
                   ghost status: Option<Exit>, ghost deadline: nat, ghost horizon: nat)
    returns (out: Bytes, outEof: bool, err: Bytes, errEof: bool, failure: Option<Failure>)
    requires LoopState(h, stdoutBytes, stdoutEof, stderrBytes, stderrEof, status) && h.Settled(horizon, deadline)
    modifies h
    ensures h.tick > old(h.tick) && ReadsBounded(h)
    ensures failure.None? ==> LoopState(h, out, outEof, err, errEof, status)
    ensures failure.None? && Prompt(h) ==> outEof && errEof
    ensures failure.Some? ==> Stopped(h, failure.value, deadline)
  {
    err, errEof := stderrBytes, stderrEof;
    out, outEof, failure := DrainOutput(h, Stdout, stdoutBytes, stdoutEof, horizon, deadline);
    if failure.Some? {
      assert h.DataReads(Stderr) == h.errReads && h.DataReads(Stdout) == h.outReads;
      h.TerminateAndReap();
      return;
    }
    err, errEof, failure := DrainOutput(h, Stderr, stderrBytes, stderrEof, horizon, deadline);
    assert h.DataReads(Stderr) == h.errReads && h.DataReads(Stdout) == h.outReads;
    if failure.Some? {
      h.TerminateAndReap();
    }
  }

  /** Asks for the status once, unless it is known. */
  method CollectStatus(h: Helper, status: Option<Exit>, ghost deadline: nat)
    returns (status': Option<Exit>, failure: Option<Failure>)
    requires h.terminations == 0
    requires (h.reaped <==> status.Some?) && (status.Some? ==> status.value == h.exit)
    modifies h`tick, h`reaped, h`terminations
    ensures status.Some? ==> h.tick == old(h.tick) && status' == status && failure.None?
    ensures status.None? ==>
              && h.tick == old(h.tick) + 1
              && status' == (if h.script(old(h.tick)).wait == Exits then Some(h.exit) else None)
              && failure == (if h.script(old(h.tick)).wait == Lost then Some(WaitFailed) else None)
    ensures failure.None? ==>
              h.terminations == 0 && (h.reaped <==> status'.Some?) && (status'.Some? ==> status'.value == h.exit)
    ensures failure.Some? ==> Stopped(h, failure.value, deadline)
  {
    status', failure := status, None;
    if status.None? {
      var result := h.TryWait();
      if result.Err? {
        h.TerminateAndReap();
        failure := Some(WaitFailed);
        return;
      }
      status' := result.value;
    }
  }

  /** Checks the clock, then waits; the run is stopped at the deadline and when polling fails. */
  method Pause(h: Helper, outEof: bool, errEof: bool, deadline: nat, ghost horizon: nat)
    returns (failure: Option<Failure>)
    requires h.Settled(horizon, deadline) && h.terminations == 0
    modifies h`tick, h`asked, h`reaped, h`terminations
    ensures h.tick > old(h.tick)
    ensures failure.None? ==> h.clock(old(h.tick)) < deadline && h.reaped == old(h.reaped) && h.terminations == 0
    ensures failure.Some? ==> Stopped(h, failure.value, deadline)
  {
    var now := h.Now();
    if now >= deadline {
      h.TerminateAndReap();
      return Some(TimedOut);
    }
    var ok := WaitBriefly(h, outEof, errEof, deadline, horizon);
    if !ok {
      h.TerminateAndReap();
      return Some(PollFailed);
    }
    return None;
  }

  /** The wait as the round needs it. */
  method WaitBriefly(h: Helper, outEof: bool, errEof: bool, deadline: nat, ghost horizon: nat) returns (ok: bool)
    requires h.Settled(horizon, deadline)
    modifies h`tick, h`asked
    ensures h.tick > old(h.tick) && (!ok ==> Blamed(h, PollFailed, deadline))
  {
    ghost var asked;
    ok, asked := WaitForOutput(h, outEof, errEof, deadline, horizon);
  }

  /** The rest of a round that is not over: collect the status, check the clock, wait. */
  method AwaitProgress(h: Helper, status: Option<Exit>, outEof: bool, errEof: bool,
                       deadline: nat, ghost horizon: nat)
    returns (status': Option<Exit>, failure: Option<Failure>, ghost looked: nat)
    requires h.Settled(horizon, deadline) && h.terminations == 0
    requires (h.reaped <==> status.Some?) && (status.Some? ==> status.value == h.exit)
    modifies h`tick, h`asked, h`reaped, h`terminations
    ensures h.tick > old(h.tick)
    ensures failure.None? ==>
              status' == if status.None? && h.script(old(h.tick)).wait == Exits then Some(h.exit) else status
    ensures failure.None? ==> (h.reaped <==> status'.Some?) && (status'.Some? ==> status'.value == h.exit)
    ensures failure.None? ==> h.terminations == 0 && old(h.tick) <= looked < h.tick && h.clock(looked) < deadline
    ensures failure.Some? ==> Stopped(h, failure.value, deadline)
  {
    looked := h.tick;
    status', failure := CollectStatus(h, status, deadline);
    if failure.Some? {
      return;
    }
    looked := h.tick;
    failure := Pause(h, outEof, errEof, deadline, horizon);
  }

  /** One round: drain both pipes, collect the status, check the clock, wait. */
  method Round(h: Helper, stdoutBytes: Bytes, stdoutEof: bool, stderrBytes: Bytes, stderrEof: bool,
               status: Option<Exit>, deadline: nat, ghost horizon: nat)
    returns (out: Bytes, outEof: bool, err: Bytes, errEof: bool, status': Option<Exit>,
             finished: bool, failure: Option<Failure>)
    requires LoopState(h, stdoutBytes, stdoutEof, stderrBytes, stderrEof, status)
    requires h.Monotone() && h.Settled(horizon, deadline)
    modifies h
    ensures h.tick > old(h.tick) && ReadsBounded(h)
    ensures failure.None? ==> LoopState(h, out, outEof, err, errEof, status')
    ensures failure.None? ==> (finished <==> status.Some? && outEof && errEof)
    ensures failure.None? && finished ==> status' == status
    ensures failure.None? && Prompt(h) ==> status'.Some? && outEof && errEof
    ensures failure.None? && !finished ==> h.clock(old(h.tick)) < deadline && old(h.tick) < horizon
    ensures failure.Some? ==> Stopped(h, failure.value, deadline)
  {
    status', finished := status, false;
    ghost var started := h.tick;
    out, outEof, err, errEof, failure :=
      DrainBoth(h, stdoutBytes, stdoutEof, stderrBytes, stderrEof, status, deadline, horizon);
    if failure.Some? {
      return;
    }
    if status.Some? && outEof && errEof {
      finished := true;
      return;
    }
    ghost var looked: nat;
    status', failure, looked := AwaitProgress(h, status, outEof, errEof, deadline, horizon);
    assert failure.None? ==> h.clock(started) <= h.clock(looked);
  }

  method Conclude(status: Option<Exit>, stdoutBytes: Bytes, stderrBytes: Bytes) returns (r: Result<Bytes, Failure>)
    ensures status.None? ==> r == Err(StatusNotCollected)
    ensures status.Some? && |stdoutBytes| <= MAX_OUTPUT_BYTES && |stderrBytes| <= MAX_OUTPUT_BYTES ==>
              r == Verdict(stdoutBytes, stderrBytes, status.value)
    ensures status.Some? ==>
              r == if status.value != Code(0) then Err(NonZeroExit(status.value))
                   else if Valid(stdoutBytes) && Valid(stderrBytes) then Ok(TrimEnd(stdoutBytes))
                   else Err(NotUtf8)
  {
    if status.None? { return Err(StatusNotCollected); }
    if !status.value.Success() { return Err(NonZeroExit(status.value)); }
    if stderrBytes != "" && !Valid(stderrBytes) { return Err(NotUtf8); }
    if !Valid(stdoutBytes) { return Err(NotUtf8); }
    return Ok(TrimEnd(stdoutBytes));
  }

  /** How a run may end: with the verdict, or with a failure from outside after one termination. */
  predicate Ends(h: Helper, r: Result<Bytes, Failure>, deadline: nat)
    reads h
  {
    && (r == Verdict(h.stdout, h.stderr, h.exit) ||
        (r.Err? && FromOutside(r.error) && Blamed(h, r.error, deadline)))
    && h.reaped
    && h.terminations == (if r.Err? && (FromOutside(r.error) || r.error == OutputLimit) then 1 else 0)
  }

  /** The loop ends on every schedule; at most one round starts at or after the deadline, and a
      helper that is over by itself takes no more than two. */
  method Supervise(h: Helper, deadline: nat)
    returns (r: Result<Bytes, Failure>, ghost lateStarts: nat, ghost rounds: nat)
    requires h.Untouched() && h.Progresses()
    modifies h
    ensures Ends(h, r, deadline) && ReadsBounded(h)
    ensures lateStarts <= 1 && (Prompt(h) ==> rounds <= 2)
  {
    var stdoutBytes, stderrBytes := "", "";
    var stdoutEof, stderrEof := false, false;
    var status: Option<Exit> := None;
    lateStarts, rounds := 0, 0;
    assert h.Outlasted(deadline);
    ghost var horizon: nat :| h.Settled(horizon, deadline);
    while true
      invariant LoopState(h, stdoutBytes, stdoutEof, stderrBytes, stderrEof, status)
      invariant lateStarts == 0
      invariant Prompt(h) ==> rounds <= 1 && (rounds == 1 ==> status.Some? && stdoutEof && stderrEof)
      decreases if h.tick < horizon then horizon - h.tick else 0
    {
      rounds := rounds + 1;
      if h.clock(h.tick) >= deadline { lateStarts := lateStarts + 1; }
      var finished, failure;
      stdoutBytes, stdoutEof, stderrBytes, stderrEof, status, finished, failure :=
        Round(h, stdoutBytes, stdoutEof, stderrBytes, stderrEof, status, deadline, horizon);
      if failure.Some? {
        return Err(failure.value), lateStarts, rounds;
      }
      if finished {
        break;
      }
    }
    assert stdoutBytes == h.stdout && stderrBytes == h.stderr;
    r := Conclude(status, stdoutBytes, stderrBytes);
  }

  /** Every schedule leads to the verdict or to a failure from outside; the child is always reaped,
      and it is terminated exactly when the run does not end with its exit status.  Without a failure
      from outside the output is accepted exactly when the child exited with code 0 and both streams
      are UTF-8 of at most 1 MiB. */
  method RunInner(h: Helper, command: seq<Bytes>, timeout: nat)
    returns (r: Result<Bytes, Failure>, ghost lateStarts: nat, ghost rounds: nat)
    requires h.Untouched() && h.Progresses()
    modifies h
    ensures command == [] ==> r == Err(EmptyCommand)
    ensures command != [] && !Absolute(command[0]) ==> r == Err(NotAbsolute)
    ensures command != [] && Absolute(command[0]) && !h.spawns ==> r == Err(SpawnFailed)
    ensures command != [] && Absolute(command[0]) && h.spawns ==> Ends(h, r, h.clock(old(h.tick)) + timeout)
    ensures command != [] && Absolute(command[0]) && h.spawns && !h.setsUp ==> r == Err(SetupFailed)
    ensures command != [] && Absolute(command[0]) && h.spawns && !(r.Err? && FromOutside(r.error)) ==>
              && (r.Ok? <==> h.exit == Code(0) && |h.stdout| <= 1024 * 1024 && |h.stderr| <= 1024 * 1024 &&
                             Valid(h.stdout) && Valid(h.stderr))
              && (r.Ok? ==> r.value == TrimEnd(h.stdout))
              && (|h.stdout| > 1024 * 1024 || |h.stderr| > 1024 * 1024 <==> r == Err(OutputLimit))
              && (r != Err(OutputLimit) && h.exit != Code(0) ==> r == Err(NonZeroExit(h.exit)))
    ensures r != Err(StatusNotCollected)
    ensures lateStarts <= 1 && ReadsBounded(h) && (Prompt(h) ==> rounds <= 2)
  {
    if command == [] { return Err(EmptyCommand), 0, 0; }
    if !Absolute(command[0]) { return Err(NotAbsolute), 0, 0; }
    var start := h.Now();
    if !h.spawns { return Err(SpawnFailed), 0, 0; }
    if !h.setsUp {
      h.TerminateAndReap();
      return Err(SetupFailed), 0, 0;
    }
    r, lateStarts, rounds := Supervise(h, start + timeout);
  }
}
