/** The scoped debug flag: src/logging.rs, with_debug and PrefixWrappingLogger::enabled. */
module DebugScope {

  datatype Level = Error | Warn | Info | Debug | Trace

  predicate Enabled(level: Level, requestDebug: bool) {
    level in {Error, Warn, Info} || (level == Debug && requestDebug)
  }

  /** What a call does as far as logging goes: log, run a scope, unwind, or stop an unwinding. */
  datatype Action = Log(level: Level) | Scope(enabled: bool, body: seq<Action>) | Panic | Catch(body: seq<Action>)

  // ----- the reference: the flag is the one of the enclosing scope in the program text -----

  function Lexical(body: seq<Action>, flag: bool): (seq<Level>, bool) {
    if body == [] then ([], false)
    else
      var (written, unwinds) := LexicalOne(body[0], flag);
      if unwinds then (written, true)
      else
        var (rest, restUnwinds) := Lexical(body[1..], flag);
        (written + rest, restUnwinds)
  }

  function LexicalOne(a: Action, flag: bool): (seq<Level>, bool) {
    match a
    case Log(level) => (if Enabled(level, flag) then [level] else [], false)
    case Scope(enabled, body) => Lexical(body, enabled)
    case Panic => ([], true)
    case Catch(body) => (Lexical(body, flag).0, false)
  }

  /** Errors, warnings and information are always logged, debug output only in a scope that asks for
      it, and tracing never. */
  lemma LevelsLogged(level: Level, enabled: bool, flag: bool)
    ensures Lexical([Scope(enabled, [Log(level)])], flag).0 ==
            match level
            case Error => [Error]
            case Warn => [Warn]
            case Info => [Info]
            case Debug => if enabled then [Debug] else []
            case Trace => []
  {
    var body, call := [Log(level)], [Scope(enabled, [Log(level)])];
    assert body[1..] == [] && call[1..] == [];
    assert Lexical(body, enabled).0 == LexicalOne(body[0], enabled).0 + [];
    assert Lexical(call, flag).0 == LexicalOne(call[0], flag).0 + [];
  }

  // ----- the code: one flag that is swapped and put back -----

  class RequestThread {
    var requestDebug: bool
    var written: seq<Level>

    constructor ()
      ensures !requestDebug && written == []
    {
      requestDebug, written := false, [];
    }

    /** `with_debug`: the guard puts the previous flag back whether or not the call unwinds. */
    method WithDebug(enabled: bool, call: seq<Action>) returns (unwinds: bool)
      modifies this
      ensures requestDebug == old(requestDebug)
      ensures (written, unwinds) == (old(written) + Lexical(call, enabled).0, Lexical(call, enabled).1)
      decreases call, 1
    {
      var previous := requestDebug;
      requestDebug := enabled;
      unwinds := Run(call);
      requestDebug := previous;
    }

    method Run(body: seq<Action>) returns (unwinds: bool)
      modifies this
      ensures requestDebug == old(requestDebug)
      ensures (written, unwinds) == (old(written) + Lexical(body, requestDebug).0, Lexical(body, requestDebug).1)
      decreases body, 0
    {
      assert old(written) + [] == old(written);
      if body == [] {
        return false;
      }
      ghost var (first, _) := LexicalOne(body[0], requestDebug);
      ghost var rest := Lexical(body[1..], requestDebug).0;
      assert old(written) + (first + rest) == old(written) + first + rest;
      match body[0] {
        case Log(level) =>
          if Enabled(level, requestDebug) {
            written := written + [level];
          }
        case Scope(enabled, inner) =>
          unwinds := WithDebug(enabled, inner);
          if unwinds { return; }
        case Panic => return true;
        case Catch(inner) =>
          var _ := Run(inner);
      }
      assert written == old(written) + first;
      unwinds := Run(body[1..]);
    }
  }

  // ----- any interleaving of threads -----

  datatype Event = Enter(enabled: bool) | Leave | Say(level: Level)

  /** One thread's flag, the flags its open guards will put back, and what it has logged. */
  datatype Thread = Thread(flag: bool, saved: seq<bool>, written: seq<Level>)

  const IDLE: Thread := Thread(false, [], [])

  function Do(t: Thread, e: Event): Thread {
    match e
    case Enter(enabled) => Thread(enabled, t.saved + [t.flag], t.written)
    case Leave => if t.saved == [] then t
                  else Thread(t.saved[|t.saved| - 1], t.saved[..|t.saved| - 1], t.written)
    case Say(level) => if Enabled(level, t.flag) then t.(written := t.written + [level]) else t
  }

  function DoAll(t: Thread, events: seq<Event>): Thread
    decreases |events|
  {
    if events == [] then t else DoAll(Do(t, events[0]), events[1..])
  }

  datatype Turn = Turn(thread: nat, event: Event)

  /** The thread-local flags side by side: a turn touches those of its own thread only. */
  function Interleaved(threads: map<nat, Thread>, turns: seq<Turn>): map<nat, Thread>
    decreases |turns|
  {
    if turns == [] then threads
    else
      var t := turns[0];
      var state := if t.thread in threads then threads[t.thread] else IDLE;
      Interleaved(threads[t.thread := Do(state, t.event)], turns[1..])
  }

  function Of(turns: seq<Turn>, thread: nat): seq<Event>
    decreases |turns|
  {
    if turns == [] then []
    else (if turns[0].thread == thread then [turns[0].event] else []) + Of(turns[1..], thread)
  }

  function StateOf(threads: map<nat, Thread>, thread: nat): Thread {
    if thread in threads then threads[thread] else IDLE
  }

  /** The events of a call: a scope enters, runs, and leaves even when it unwinds. */
  function Events(body: seq<Action>): (seq<Event>, bool) {
    if body == [] then ([], false)
    else
      var (events, unwinds) := EventsOf(body[0]);
      if unwinds then (events, true)
      else
        var (rest, restUnwinds) := Events(body[1..]);
        (events + rest, restUnwinds)
  }

  function EventsOf(a: Action): (seq<Event>, bool) {
    match a
    case Log(level) => ([Say(level)], false)
    case Scope(enabled, body) => ([Enter(enabled)] + Events(body).0 + [Leave], Events(body).1)
    case Panic => ([], true)
    case Catch(body) => (Events(body).0, false)
  }

  lemma {:induction false} DoAllConcat(t: Thread, a: seq<Event>, b: seq<Event>)
    ensures DoAll(t, a + b) == DoAll(DoAll(t, a), b)
    decreases |a|
  {
    if a == [] {
      assert a + b == b;
    } else {
      assert (a + b)[1..] == a[1..] + b;
      DoAllConcat(Do(t, a[0]), a[1..], b);
    }
  }

  /** Running the events of a call logs what its text says and leaves the flags as they were. */
  lemma {:induction false} EventsAreLexical(body: seq<Action>, t: Thread)
    ensures DoAll(t, Events(body).0) == t.(written := t.written + Lexical(body, t.flag).0)
    ensures Events(body).1 == Lexical(body, t.flag).1
    decreases body
  {
    if body != [] {
      EventsOfAreLexical(body[0], t);
      var (first, unwinds) := EventsOf(body[0]);
      if !unwinds {
        var t1 := DoAll(t, first);
        EventsAreLexical(body[1..], t1);
        DoAllConcat(t, first, Events(body[1..]).0);
      }
    }
  }

  lemma {:induction false} EventsOfAreLexical(a: Action, t: Thread)
    ensures DoAll(t, EventsOf(a).0) == t.(written := t.written + LexicalOne(a, t.flag).0)
    ensures EventsOf(a).1 == LexicalOne(a, t.flag).1
    decreases a
  {
    match a
    case Log(level) =>
      assert DoAll(t, [Say(level)]) == DoAll(Do(t, Say(level)), []);
    case Panic =>
    case Catch(body) => EventsAreLexical(body, t);
    case Scope(enabled, body) =>
      var inner := Thread(enabled, t.saved + [t.flag], t.written);
      EventsAreLexical(body, inner);
      var middle := Events(body).0;
      assert ([Enter(enabled)] + middle + [Leave])[1..] == middle + [Leave];
      DoAllConcat(inner, middle, [Leave]);
      var after := DoAll(inner, middle);
      assert after.saved[..|t.saved|] == t.saved;
      assert DoAll(after, [Leave]) == DoAll(Do(after, Leave), []);
  }

  lemma {:induction false} ThreadsAreIndependent(threads: map<nat, Thread>, turns: seq<Turn>, thread: nat)
    ensures StateOf(Interleaved(threads, turns), thread) == DoAll(StateOf(threads, thread), Of(turns, thread))
    decreases |turns|
  {
    if turns != [] {
      var t := turns[0];
      var next := threads[t.thread := Do(StateOf(threads, t.thread), t.event)];
      ThreadsAreIndependent(next, turns[1..], thread);
      if t.thread == thread {
        assert ([t.event] + Of(turns[1..], thread))[1..] == Of(turns[1..], thread);
      } else {
        assert [] + Of(turns[1..], thread) == Of(turns[1..], thread);
      }
    }
  }

  /** However other threads interleave, a thread that runs `body` logs exactly what the enclosing
      scopes in `body` allow, and its flag is afterwards what it was before. */
  lemma InterleavedIsLexical(turns: seq<Turn>, thread: nat, body: seq<Action>)
    requires Of(turns, thread) == Events(body).0
    ensures StateOf(Interleaved(map[], turns), thread) == Thread(false, [], Lexical(body, false).0)
  {
    ThreadsAreIndependent(map[], turns, thread);
    EventsAreLexical(body, IDLE);
    assert [] + Lexical(body, false).0 == Lexical(body, false).0;
  }

  // ----- at every moment: the innermost open scope -----

  /** The flag of the innermost scope still open after `events`, not counting `skip` inner ones. */
  function Innermost(events: seq<Event>, skip: nat): bool
    decreases |events|
  {
    if events == [] then false
    else
      var n := |events| - 1;
      match events[n]
      case Say(_) => Innermost(events[..n], skip)
      case Leave => Innermost(events[..n], skip + 1)
      case Enter(enabled) => if skip == 0 then enabled else Innermost(events[..n], skip - 1)
  }

  predicate Nested(events: seq<Event>)
    decreases |events|
  {
    events == [] ||
    var n := |events| - 1;
    Nested(events[..n]) && (events[n] == Leave ==> DoAll(IDLE, events[..n]).saved != [])
  }

  lemma NestedSnoc(events: seq<Event>, e: Event)
    requires Nested(events) && (e == Leave ==> DoAll(IDLE, events).saved != [])
    ensures Nested(events + [e])
  {
    assert (events + [e])[..|events|] == events;
  }

  /** The events of a call, cut off anywhere, are well nested after events that are. */
  lemma {:induction false} PrefixesAreNested(before: seq<Event>, body: seq<Action>, n: nat)
    requires Nested(before) && n <= |Events(body).0|
    ensures Nested(before + Events(body).0[..n])
    decreases body, 0
  {
    if n == 0 {
      assert before + Events(body).0[..n] == before;
    } else {
      var first, unwinds := EventsOf(body[0]).0, EventsOf(body[0]).1;
      if n <= |first| {
        PrefixesOfOneAreNested(before, body[0], n);
        assert Events(body).0[..n] == first[..n];
      } else {
        PrefixesOfOneAreNested(before, body[0], |first|);
        CutAfter(before, first, Events(body[1..]).0, n);
        PrefixesAreNested(before + first, body[1..], n - |first|);
      }
    }
  }

  lemma CutAfter(before: seq<Event>, first: seq<Event>, rest: seq<Event>, n: nat)
    requires |first| < n <= |first| + |rest|
    ensures before + (first + rest)[..n] == before + first + rest[..n - |first|] && first[..|first|] == first
  {
  }

  lemma {:induction false} PrefixesOfOneAreNested(before: seq<Event>, a: Action, n: nat)
    requires Nested(before) && n <= |EventsOf(a).0|
    ensures Nested(before + EventsOf(a).0[..n])
    decreases a, 0
  {
    var events := EventsOf(a).0;
    if n == 0 {
      assert before + events[..n] == before;
    } else {
      match a
      case Log(level) =>
        assert events[..n] == [Say(level)];
        NestedSnoc(before, Say(level));
      case Panic =>
      case Catch(body) => PrefixesAreNested(before, body, n);
      case Scope(enabled, body) => PrefixesOfScopeAreNested(before, enabled, body, n);
    }
  }

  lemma {:induction false} PrefixesOfScopeAreNested(before: seq<Event>, enabled: bool, body: seq<Action>, n: nat)
    requires Nested(before) && 0 < n <= |Events(body).0| + 2
    ensures Nested(before + ([Enter(enabled)] + Events(body).0 + [Leave])[..n])
    decreases body, 1
  {
    var inner, entered := Events(body).0, before + [Enter(enabled)];
    NestedSnoc(before, Enter(enabled));
    CutScope(before, Enter(enabled), inner, Leave, n);
    if n - 1 <= |inner| {
      PrefixesAreNested(entered, body, n - 1);
    } else {
      PrefixesAreNested(entered, body, |inner|);
      ScopeStaysOpen(before, enabled, body);
      NestedSnoc(entered + inner, Leave);
    }
  }

  lemma CutScope(before: seq<Event>, e: Event, inner: seq<Event>, l: Event, n: nat)
    requires 0 < n <= |inner| + 2
    ensures n - 1 <= |inner| ==> before + ([e] + inner + [l])[..n] == before + [e] + inner[..n - 1]
    ensures n - 1 > |inner| ==>
              before + ([e] + inner + [l])[..n] == before + [e] + inner + [l] && inner[..|inner|] == inner
  {
  }

  lemma ScopeStaysOpen(before: seq<Event>, enabled: bool, body: seq<Action>)
    ensures DoAll(IDLE, before + [Enter(enabled)] + Events(body).0).saved != []
  {
    var entered := before + [Enter(enabled)];
    DoAllConcat(IDLE, before, [Enter(enabled)]);
    DoAllConcat(IDLE, entered, Events(body).0);
    var t := DoAll(IDLE, before);
    assert DoAll(t, [Enter(enabled)]) == DoAll(Do(t, Enter(enabled)), []);
    EventsAreLexical(body, DoAll(IDLE, entered));
  }

  /** At every point of a well-nested run the flag is that of the innermost open scope, and the
      saved flags are those of the scopes around it. */
  lemma {:induction false} FlagIsInnermost(events: seq<Event>)
    requires Nested(events)
    ensures var t := DoAll(IDLE, events);
            && t.flag == Innermost(events, 0)
            && forall i :: 0 <= i < |t.saved| ==> t.saved[i] == Innermost(events, |t.saved| - i)
    decreases |events|
  {
    if events != [] {
      var n := |events| - 1;
      var e := events[n];
      var before := DoAll(IDLE, events[..n]);
      FlagIsInnermost(events[..n]);
      assert events == events[..n] + [e];
      DoAllConcat(IDLE, events[..n], [e]);
      assert DoAll(before, [e]) == DoAll(Do(before, e), []);
      assert DoAll(IDLE, events) == Do(before, e);
    }
  }

  /** At every moment of every interleaving, a thread in the middle of a call sees the flag of the
      innermost scope it is in. */
  lemma FlagIsInnermostMidway(turns: seq<Turn>, thread: nat, body: seq<Action>)
    requires Of(turns, thread) <= Events(body).0
    ensures StateOf(Interleaved(map[], turns), thread).flag == Innermost(Of(turns, thread), 0)
  {
    var events := Of(turns, thread);
    ThreadsAreIndependent(map[], turns, thread);
    PrefixesAreNested([], body, |events|);
    assert [] + Events(body).0[..|events|] == events;
    FlagIsInnermost(events);
  }
}
