/** The six expansion passes as one left-to-right simultaneous substitution, and exactly
    when the two agree: src/expansions.rs. */
module Simultaneous {
  import opened Outcomes
  import opened Utf8
  import opened Expansions

  // ----- the reference definition -----

  function Without(slots: seq<Slot>, slot: Slot): (r: seq<Slot>)
    requires slot in slots
    ensures |r| == |slots| - 1
    decreases |slots|
  {
    if slots[0] == slot then slots[1..] else [slots[0]] + Without(slots[1..], slot)
  }

  predicate Active(s: Bytes, slots: seq<Slot>) {
    HeadSlot(s).Some? && HeadSlot(s).value in slots
  }

  /** One scan over the template.  The first occurrence of each slot is replaced; text inside
      a replaced span is not looked at again, and neither is any value. */
  function Scan(s: Bytes, slots: seq<Slot>, env: Lookups): Option<Bytes>
    decreases |s|
  {
    if s == "" then Some("")
    else if Active(s, slots) then
      var h := HeadSlot(s).value;
      Join(ValueAt(s, h, env), Scan(s[Span(s, h)..], Without(slots, h), env))
    else Join(Some(s[..1]), Scan(s[1..], slots, env))
  }

  // ----- the condition on the template -----

  /** A replaced slot that directly follows a literal '%' must be the last one left, because
      its value could complete that '%' to a slot of a later pass. */
  predicate SafeScan(s: Bytes, slots: seq<Slot>)
    decreases |s|
  {
    if s == "" then true
    else if Active(s, slots) then
      var h := HeadSlot(s).value;
      SafeScan(s[Span(s, h)..], Without(slots, h))
    else
      && (s[0] == '%' && Active(s[1..], slots) ==> HeadSlot(s[1..]).value == slots[|slots| - 1])
      && SafeScan(s[1..], slots)
  }

  predicate SafeTemplate(s: Bytes) {
    SafeScan(s, SLOTS)
  }

  /** A value without '%' starts no slot that a later pass looks for: `~` is expanded first. */
  predicate Inert(v: Bytes) {
    '%' !in v
  }

  ghost predicate InertFor(env: Lookups, slots: seq<Slot>) {
    && (Home in slots ==> forall name :: env.home(name).Some? ==> Inert(env.home(name).value))
    && (forall letter :: Var(letter) in slots && env.value(letter).Some? ==> Inert(env.value(letter).value))
  }

  predicate WellOrdered(slots: seq<Slot>) {
    && (forall i :: 0 <= i < |slots| && slots[i].Home? ==> i == 0)
    && (forall i :: 0 <= i < |slots| && slots[i].Var? ==> slots[i].letter !in "%~x")
    && (forall i, j :: 0 <= i < j < |slots| ==> slots[i] != slots[j])
  }

  // ----- facts about slot lists -----

  lemma {:induction false} WithoutMembers(slots: seq<Slot>, slot: Slot)
    requires WellOrdered(slots) && slot in slots
    ensures WellOrdered(Without(slots, slot))
    ensures forall t :: t in Without(slots, slot) <==> t in slots && t != slot
    ensures slots[0] != slot ==> |Without(slots, slot)| > 0 && Without(slots, slot)[0] == slots[0]
    ensures slots[|slots| - 1] != slot ==>
              Without(slots, slot)[|slots| - 2] == slots[|slots| - 1]
    decreases |slots|
  {
    if slots[0] != slot {
      WithoutMembers(slots[1..], slot);
      var r := Without(slots[1..], slot);
      assert slots[0] !in slots[1..];
      assert slots[0] !in r;
      forall i, j | 0 <= i < j < |r| + 1 ensures ([slots[0]] + r)[i] != ([slots[0]] + r)[j] {
        assert r[j - 1] in r;
      }
    }
  }

  lemma SlotsWellOrdered()
    ensures WellOrdered(SLOTS)
  {
  }

  // ----- inert text passes through -----

  lemma {:induction false} ScanInert(v: Bytes, s: Bytes, slots: seq<Slot>, env: Lookups)
    requires Inert(v) && Home !in slots
    ensures Scan(v + s, slots, env) == Join(Some(v), Scan(s, slots, env))
    ensures SafeScan(v + s, slots) == SafeScan(s, slots)
  {
    if v == "" {
      assert v + s == s;
      assert Scan(s, slots, env).Some? ==> "" + Scan(s, slots, env).value == Scan(s, slots, env).value;
    } else {
      assert v[0] in v;
      assert (v + s)[1..] == v[1..] + s && (v + s)[..1] == v[..1] && v == v[..1] + v[1..];
      ScanInert(v[1..], s, slots, env);
      var q := Scan(s, slots, env);
      assert q.Some? ==> v[..1] + (v[1..] + q.value) == v + q.value;
    }
  }

  lemma {:induction false} ScanNothing(s: Bytes, env: Lookups)
    ensures Scan(s, [], env) == Some(s) && SafeScan(s, [])
  {
    if s != "" {
      assert s == s[..1] + s[1..];
      ScanNothing(s[1..], env);
    }
  }

  // ----- one pass peels one slot off the scan -----

  /** What is left of the template after the first pass scans like the template itself. */
  lemma {:induction false} PassPeels(s: Bytes, slots: seq<Slot>, env: Lookups)
    requires slots != [] && WellOrdered(slots) && InertFor(env, slots) && SafeScan(s, slots)
    ensures var p := Pass(s, slots[0], env);
            if p.None? then Scan(s, slots, env) == None
            else Scan(s, slots, env) == Scan(p.value, slots[1..], env) && SafeScan(p.value, slots[1..])
    decreases |s|
  {
    if s == "" {
    } else if StartsWith(s, slots[0]) {
      PeelAtHead(s, slots, env);
    } else if Active(s, slots) {
      PeelPastSlot(s, slots, env);
    } else {
      PassPeels(s[1..], slots, env);
      PeelPastCharacter(s, slots, env);
    }
  }

  lemma PeelAtHead(s: Bytes, slots: seq<Slot>, env: Lookups)
    requires slots != [] && WellOrdered(slots) && InertFor(env, slots) && SafeScan(s, slots) && StartsWith(s, slots[0])
    ensures var p := Pass(s, slots[0], env);
            if p.None? then Scan(s, slots, env) == None
            else Scan(s, slots, env) == Scan(p.value, slots[1..], env) && SafeScan(p.value, slots[1..])
  {
    var v := ValueAt(s, slots[0], env);
    if v.Some? {
      ScanInert(v.value, s[Span(s, slots[0])..], slots[1..], env);
    }
  }

  lemma {:induction false} PeelPastSlot(s: Bytes, slots: seq<Slot>, env: Lookups)
    requires slots != [] && WellOrdered(slots) && InertFor(env, slots) && SafeScan(s, slots)
    requires Active(s, slots) && !StartsWith(s, slots[0])
    ensures var p := Pass(s, slots[0], env);
            if p.None? then Scan(s, slots, env) == None
            else Scan(s, slots, env) == Scan(p.value, slots[1..], env) && SafeScan(p.value, slots[1..])
    decreases |s|, 0
  {
    var h := HeadSlot(s).value;
    var r := s[2..];
    assert h.Var?;
    WithoutMembers(slots, h);
    var fewer := Without(slots, h);
    assert fewer[1..] == Without(slots[1..], h);
    PassPeels(r, fewer, env);
    PassSkipsSlot(s, slots[0], env);
    var q := Pass(r, slots[0], env);
    if q.Some? {
      var p := s[..2] + q.value;
      assert p[2..] == q.value && HeadSlot(p) == Some(h) && Span(p, h) == 2;
      assert h in slots[1..];
    }
  }

  lemma PassSkipsSlot(s: Bytes, slot: Slot, env: Lookups)
    requires |s| >= 2 && s[0] == '%' && s[1] !in "%~" && slot != Var(s[1])
    ensures Pass(s, slot, env) == Join(Some(s[..2]), Pass(s[2..], slot, env))
  {
    var r := s[1..];
    assert !StartsWith(s, slot) && !StartsWith(r, slot);
    assert r[1..] == s[2..] && s[..1] + r[..1] == s[..2];
    var q := Pass(s[2..], slot, env);
    assert q.Some? ==> s[..1] + (r[..1] + q.value) == s[..2] + q.value;
  }

  lemma {:induction false} PeelPastCharacter(s: Bytes, slots: seq<Slot>, env: Lookups)
    requires s != "" && slots != [] && WellOrdered(slots) && InertFor(env, slots) && SafeScan(s, slots)
    requires !Active(s, slots)
    requires var p := Pass(s[1..], slots[0], env);
             if p.None? then Scan(s[1..], slots, env) == None
             else Scan(s[1..], slots, env) == Scan(p.value, slots[1..], env) && SafeScan(p.value, slots[1..])
    ensures var p := Pass(s, slots[0], env);
            if p.None? then Scan(s, slots, env) == None
            else Scan(s, slots, env) == Scan(p.value, slots[1..], env) && SafeScan(p.value, slots[1..])
  {
    var q := Pass(s[1..], slots[0], env);
    if q.Some? {
      var p := s[..1] + q.value;
      assert p[1..] == q.value && p[..1] == s[..1];
      if |slots| == 1 {
        ScanNothing(p, env);
        ScanNothing(q.value, env);
      } else {
        CharacterStays(s, slots, env);
      }
    }
  }

  lemma CharacterStays(s: Bytes, slots: seq<Slot>, env: Lookups)
    requires s != "" && |slots| > 1 && WellOrdered(slots) && InertFor(env, slots)
    requires SafeScan(s, slots) && !Active(s, slots) && Pass(s[1..], slots[0], env).Some?
    ensures var v := Pass(s[1..], slots[0], env).value;
            && !Active(s[..1] + v, slots[1..])
            && (s[0] == '%' && Active(v, slots[1..]) ==> HeadSlot(v).value == slots[|slots| - 1])
  {
    var t := s[1..];
    if s[0] == '%' {
      assert !StartsWith(t, slots[0]);
      PassKeepsFirst(t, slots[0], env);
      if |t| > 1 && t[0] == '%' && !StartsWith(t[1..], slots[0]) {
        PassKeepsFirst(t[1..], slots[0], env);
      }
    }
  }

  lemma PassKeepsFirst(s: Bytes, slot: Slot, env: Lookups)
    requires !StartsWith(s, slot)
    ensures var p := Pass(s, slot, env);
            p.Some? ==> (s == "" <==> p.value == "") && (s != "" ==> p.value[0] == s[0])
  {
  }

  lemma {:induction false} PassesAreScan(s: Bytes, slots: seq<Slot>, env: Lookups)
    requires WellOrdered(slots) && InertFor(env, slots) && SafeScan(s, slots)
    ensures Passes(s, slots, env) == Scan(s, slots, env)
    decreases |slots|
  {
    if slots == [] {
      ScanNothing(s, env);
    } else {
      PassPeels(s, slots, env);
      var p := Pass(s, slots[0], env);
      if p.Some? {
        PassesAreScan(p.value, slots[1..], env);
      }
    }
  }

  // ----- an unsafe template has environments that tell the two apart -----

  /** Every lookup that a slot makes yields some text without '%'. */
  ghost predicate Talks(env: Lookups, slots: seq<Slot>) {
    && (Home in slots ==> forall name :: SaysText(env.home(name)))
    && (forall letter :: Var(letter) in slots ==> SaysText(env.value(letter)))
  }

  predicate SaysText(v: Option<Bytes>) {
    v.Some? && v.value != "" && Inert(v.value)
  }

  /** The values of `p` begin with the letter `q`. */
  ghost predicate Begins(env: Lookups, p: Slot, q: char) {
    if p.Home? then forall name :: BeginsWith(env.home(name), q) else BeginsWith(env.value(p.letter), q)
  }

  predicate BeginsWith(v: Option<Bytes>, q: char) {
    v.Some? && v.value != "" ==> v.value[0] == q
  }

  lemma TalksAt(s: Bytes, slot: Slot, slots: seq<Slot>, env: Lookups)
    requires StartsWith(s, slot) && slot in slots && Talks(env, slots)
    ensures SaysText(ValueAt(s, slot, env))
  {
  }

  lemma TalksIsInert(env: Lookups, slots: seq<Slot>)
    requires Talks(env, slots)
    ensures InertFor(env, slots)
  {
  }

  lemma TalksFewer(env: Lookups, slots: seq<Slot>, fewer: seq<Slot>)
    requires Talks(env, slots) && forall slot :: slot in fewer ==> slot in slots
    ensures Talks(env, fewer)
  {
  }

  lemma {:induction false} PassInert(v: Bytes, s: Bytes, slot: Slot, env: Lookups)
    requires Inert(v) && slot != Home
    ensures Pass(v + s, slot, env) == Join(Some(v), Pass(s, slot, env))
  {
    var q := Pass(s, slot, env);
    if v == "" {
      assert v + s == s;
      assert q.Some? ==> "" + q.value == q.value;
    } else {
      assert v[0] in v;
      assert (v + s)[1..] == v[1..] + s && (v + s)[..1] == v[..1];
      PassInert(v[1..], s, slot, env);
      assert q.Some? ==> v[..1] + (v[1..] + q.value) == v + q.value;
    }
  }

  lemma {:induction false} PassesInert(v: Bytes, s: Bytes, slots: seq<Slot>, env: Lookups)
    requires Inert(v) && Home !in slots
    ensures Passes(v + s, slots, env) == Join(Some(v), Passes(s, slots, env))
    decreases |slots|
  {
    if slots != [] {
      PassInert(v, s, slots[0], env);
      var q := Pass(s, slots[0], env);
      if q.Some? {
        PassesInert(v, q.value, slots[1..], env);
      }
    }
  }

  lemma {:induction false} PassTotal(s: Bytes, slot: Slot, slots: seq<Slot>, env: Lookups)
    requires slot in slots && Talks(env, slots)
    ensures Pass(s, slot, env).Some?
  {
    if s != "" {
      if StartsWith(s, slot) {
        TalksAt(s, slot, slots, env);
      } else {
        PassTotal(s[1..], slot, slots, env);
      }
    }
  }

  lemma {:induction false} PassesTotal(s: Bytes, slots: seq<Slot>, env: Lookups)
    requires Talks(env, slots)
    ensures Passes(s, slots, env).Some?
    decreases |slots|
  {
    if slots != [] {
      PassTotal(s, slots[0], slots, env);
      TalksFewer(env, slots, slots[1..]);
      PassesTotal(Pass(s, slots[0], env).value, slots[1..], env);
    }
  }

  /** The passes deal with a slot at the head separately from the rest. */
  lemma {:induction false} PassesSplitSlot(s: Bytes, slots: seq<Slot>, env: Lookups)
    requires WellOrdered(slots) && Active(s, slots) && Talks(env, slots)
    ensures var h := HeadSlot(s).value;
            Passes(s, slots, env) == Join(ValueAt(s, h, env), Passes(s[Span(s, h)..], Without(slots, h), env))
    decreases |slots|
  {
    var h := HeadSlot(s).value;
    TalksAt(s, h, slots, env);
    var r := s[Span(s, h)..];
    if slots[0] == h {
      PassesInert(ValueAt(s, h, env).value, r, slots[1..], env);
    } else {
      assert h.Var?;
      PassSkipsSlot(s, slots[0], env);
      PassTotal(r, slots[0], slots, env);
      TalksFewer(env, slots, slots[1..]);
      var r' := Pass(r, slots[0], env).value;
      var s' := s[..2] + r';
      assert s'[2..] == r' && HeadSlot(s') == Some(h);
      PassesSplitSlot(s', slots[1..], env);
      assert ([slots[0]] + Without(slots[1..], h))[1..] == Without(slots[1..], h);
    }
  }

  /** The values of `b` complete a '%' to no slot but the last. */
  ghost predicate CompletesLast(b: Slot, slots: seq<Slot>, env: Lookups)
    requires slots != []
  {
    if b.Home? then forall name :: OnlyLast(env.home(name), slots) else OnlyLast(env.value(b.letter), slots)
  }

  predicate OnlyLast(v: Option<Bytes>, slots: seq<Slot>)
    requires slots != []
  {
    v.Some? && v.value != "" && Var(v.value[0]) in slots ==> Var(v.value[0]) == slots[|slots| - 1]
  }

  /** A run of '%' that ends in a slot, if in any, whose value completes at most the last slot. */
  ghost predicate Runs(u: Bytes, slots: seq<Slot>, env: Lookups) {
    u == "" ||
    if Active(u, slots) then
      HeadSlot(u).value == slots[|slots| - 1] || CompletesLast(HeadSlot(u).value, slots, env)
    else u[0] == '%' ==> Runs(u[1..], slots, env)
  }

  /** No '%' in front of `t` is ever completed. */
  ghost predicate Quiet(t: Bytes, slots: seq<Slot>, env: Lookups) {
    t == "" ||
    (Var(t[0]) !in slots &&
     if Active(t, slots) then HeadSlot(t).value == slots[|slots| - 1]
     else t[0] == '%' ==> Runs(t[1..], slots, env))
  }

  lemma {:induction false} RunsNothing(u: Bytes, env: Lookups)
    ensures Runs(u, [], env)
  {
    if u != "" {
      RunsNothing(u[1..], env);
    }
  }

  lemma CompletesFewer(b: Slot, slots: seq<Slot>, env: Lookups)
    requires |slots| > 1 && CompletesLast(b, slots, env)
    ensures CompletesLast(b, slots[1..], env)
  {
    assert forall slot :: slot in slots[1..] ==> slot in slots;
  }

  /** What a '%' directly before `w` is completed to by the first pass. */
  lemma CompletedHead(w: Bytes, slots: seq<Slot>, env: Lookups)
    requires |slots| > 1 && WellOrdered(slots) && Talks(env, slots) && Runs(w, slots, env)
    requires !Active("%" + w, slots)
    ensures Pass(w, slots[0], env).Some?
    ensures var w' := Pass(w, slots[0], env).value;
            Active("%" + w', slots[1..]) ==> HeadSlot("%" + w').value == slots[|slots| - 1]
  {
    PassTotal(w, slots[0], slots, env);
    var w' := Pass(w, slots[0], env).value;
    if StartsWith(w, slots[0]) {
      TalksAt(w, slots[0], slots, env);
      assert w'[0] == ValueAt(w, slots[0], env).value[0];
      assert slots[0] != slots[|slots| - 1];
    } else {
      PassKeepsFirst(w, slots[0], env);
    }
  }

  lemma {:induction false} RunsStep(u: Bytes, slots: seq<Slot>, env: Lookups)
    requires |slots| > 1 && WellOrdered(slots) && Talks(env, slots) && Runs(u, slots, env)
    ensures Pass(u, slots[0], env).Some? && Runs(Pass(u, slots[0], env).value, slots[1..], env)
  {
    PassTotal(u, slots[0], slots, env);
    var u' := Pass(u, slots[0], env).value;
    if u == "" {
    } else if StartsWith(u, slots[0]) {
      TalksAt(u, slots[0], slots, env);
      var v := ValueAt(u, slots[0], env).value;
      assert u'[0] == v[0] && v[0] in v;
    } else if Active(u, slots) {
      var h := HeadSlot(u).value;
      PassSkipsSlot(u, slots[0], env);
      assert HeadSlot(u') == Some(h);
      if h != slots[|slots| - 1] {
        CompletesFewer(h, slots, env);
      }
    } else {
      assert u'[1..] == Pass(u[1..], slots[0], env).value && u'[0] == u[0];
      if u[0] == '%' {
        RunsStep(u[1..], slots, env);
        assert u == "%" + u[1..] && u' == "%" + u'[1..];
        CompletedHead(u[1..], slots, env);
      }
    }
  }

  lemma QuietStep(t: Bytes, slots: seq<Slot>, env: Lookups)
    requires |slots| > 1 && WellOrdered(slots) && Talks(env, slots) && Quiet(t, slots, env)
    ensures Pass(t, slots[0], env).Some? && Quiet(Pass(t, slots[0], env).value, slots[1..], env)
  {
    PassTotal(t, slots[0], slots, env);
    var t' := Pass(t, slots[0], env).value;
    assert slots[0] != slots[|slots| - 1];
    assert !StartsWith(t, slots[0]);
    PassKeepsFirst(t, slots[0], env);
    if t == "" {
    } else if Active(t, slots) {
      PassSkipsSlot(t, slots[0], env);
      assert HeadSlot(t') == HeadSlot(t);
    } else {
      assert t'[1..] == Pass(t[1..], slots[0], env).value;
      if t[0] == '%' {
        RunsStep(t[1..], slots, env);
        assert t == "%" + t[1..] && t' == "%" + t'[1..];
        CompletedHead(t[1..], slots, env);
      }
    }
  }

  lemma {:induction false} PassesSplitCharacter(c: char, t: Bytes, slots: seq<Slot>, env: Lookups)
    requires WellOrdered(slots) && Talks(env, slots)
    requires c == '~' ==> Home !in slots
    requires c == '%' ==> Quiet(t, slots, env)
    ensures Passes([c] + t, slots, env) == Join(Some([c]), Passes(t, slots, env))
    decreases |slots|
  {
    if slots != [] {
      var s0 := slots[0];
      assert ([c] + t)[1..] == t && ([c] + t)[..1] == [c];
      assert !StartsWith([c] + t, s0);
      PassTotal(t, s0, slots, env);
      TalksFewer(env, slots, slots[1..]);
      var t' := Pass(t, s0, env).value;
      if c == '%' {
        if |slots| > 1 {
          QuietStep(t, slots, env);
        } else {
          NothingLeft(t', env);
        }
      }
      PassesSplitCharacter(c, t', slots[1..], env);
    }
  }

  lemma NothingLeft(t: Bytes, env: Lookups)
    ensures Quiet(t, [], env)
  {
    if t != "" {
      RunsNothing(t[1..], env);
    }
  }

  /** A slot directly after a literal '%', with a later slot still to come: the value of the
      first completes the '%', and the pass for the second replaces it. */
  lemma {:induction false} PassesComplete(t: Bytes, slots: seq<Slot>, env: Lookups, p: Slot, q: char)
    requires WellOrdered(slots) && Talks(env, slots) && Begins(env, p, q)
    requires Active(t, slots) && HeadSlot(t).value == p
    requires exists i, j :: 0 <= i < j < |slots| && slots[i] == p && slots[j] == Var(q)
    ensures var r := Passes("%" + t, slots, env); r.Some? ==> r.value != "" && r.value[0] != '%'
    decreases |slots|
  {
    var i, j :| 0 <= i < j < |slots| && slots[i] == p && slots[j] == Var(q);
    assert ("%" + t)[1..] == t && ("%" + t)[..1] == "%";
    PassTotal(t, slots[0], slots, env);
    TalksFewer(env, slots, slots[1..]);
    var t' := Pass(t, slots[0], env).value;
    assert slots[0] != Var(t[0]);
    assert Pass("%" + t, slots[0], env) == Some("%" + t');
    if slots[0] == p {
      TalksAt(t, p, slots, env);
      var u := "%" + t';
      assert t'[0] == ValueAt(t, p, env).value[0] == q;
      assert slots[1..][j - 1] == Var(q);
      assert HeadSlot(u) == Some(Var(q)) && Active(u, slots[1..]);
      PassesSplitSlot(u, slots[1..], env);
      TalksAt(u, Var(q), slots[1..], env);
      BeginsOther(env.value(q).value);
    } else {
      assert p.Var?;
      PassSkipsSlot(t, slots[0], env);
      assert slots[1..][i - 1] == p && slots[1..][j - 1] == Var(q);
      PassesComplete(t', slots[1..], env, p, q);
    }
  }

  lemma BeginsOther(v: Bytes)
    requires v != "" && Inert(v)
    ensures v[0] != '%'
  {
    assert v[0] in v;
  }

  lemma JoinCancels(v: Bytes, a: Option<Bytes>, b: Option<Bytes>)
    requires a != b
    ensures Join(Some(v), a) != Join(Some(v), b)
  {
    if a.Some? && b.Some? {
      assert (v + a.value)[|v|..] == a.value && (v + b.value)[|v|..] == b.value;
    }
  }

  datatype Trapped = Trapped(slot: Slot, letter: char)

  /** The first slot that breaks the condition, and the letter of the last one left there. */
  function Trap(s: Bytes, slots: seq<Slot>): (r: Trapped)
    requires WellOrdered(slots) && !SafeScan(s, slots)
    ensures r.slot in slots && Var(r.letter) in slots && r.slot != Var(r.letter)
    decreases |s|
  {
    if Active(s, slots) then
      var h := HeadSlot(s).value;
      WithoutMembers(slots, h);
      Trap(s[Span(s, h)..], Without(slots, h))
    else if s[0] == '%' && Active(s[1..], slots) && HeadSlot(s[1..]).value != slots[|slots| - 1] then
      Trapped(HeadSlot(s[1..]).value, slots[|slots| - 1].letter)
    else Trap(s[1..], slots)
  }

  lemma {:induction false} TrapRuns(u: Bytes, slots: seq<Slot>, env: Lookups)
    requires WellOrdered(slots) && !SafeScan("%" + u, slots) && !Active("%" + u, slots)
    requires var r := Trap("%" + u, slots); Begins(env, r.slot, r.letter)
    ensures Runs(u, slots, env)
  {
    var w := "%" + u;
    assert w[1..] == u;
    if u != "" && !Active(u, slots) && u[0] == '%' {
      assert u == "%" + u[1..];
      TrapRuns(u[1..], slots, env);
    }
  }

  /** Wherever the value of the trapped slot begins with that letter, the passes go astray. */
  lemma {:induction false} UnsafeDiverges(s: Bytes, slots: seq<Slot>, env: Lookups)
    requires WellOrdered(slots) && !SafeScan(s, slots) && Talks(env, slots)
    requires var r := Trap(s, slots); Begins(env, r.slot, r.letter)
    ensures Passes(s, slots, env) != Scan(s, slots, env)
    decreases |s|
  {
    if Active(s, slots) {
      var h := HeadSlot(s).value;
      var rest, fewer := s[Span(s, h)..], Without(slots, h);
      WithoutMembers(slots, h);
      TalksFewer(env, slots, fewer);
      UnsafeDiverges(rest, fewer, env);
      PassesSplitSlot(s, slots, env);
      TalksAt(s, h, slots, env);
      JoinCancels(ValueAt(s, h, env).value, Passes(rest, fewer, env), Scan(rest, fewer, env));
    } else {
      var t := s[1..];
      assert s == [s[0]] + t && s[..1] == [s[0]];
      if s[0] == '%' && Active(t, slots) && HeadSlot(t).value != slots[|slots| - 1] {
        var last := slots[|slots| - 1];
        assert HeadSlot(t).value in slots;
        PassesComplete(t, slots, env, HeadSlot(t).value, last.letter);
        assert s == "%" + t;
        PassesTotal(s, slots, env);
      } else {
        UnsafeDiverges(t, slots, env);
        if s[0] == '%' {
          QuietBefore(t, slots, env);
        }
        PassesSplitCharacter(s[0], t, slots, env);
        JoinCancels([s[0]], Passes(t, slots, env), Scan(t, slots, env));
      }
    }
  }

  lemma QuietBefore(t: Bytes, slots: seq<Slot>, env: Lookups)
    requires WellOrdered(slots) && !Active("%" + t, slots) && !SafeScan(t, slots)
    requires Active(t, slots) ==> HeadSlot(t).value == slots[|slots| - 1]
    requires var r := Trap(t, slots); Begins(env, r.slot, r.letter)
    ensures Quiet(t, slots, env)
  {
    if t != "" && !Active(t, slots) && t[0] == '%' {
      assert t == "%" + t[1..];
      TrapRuns(t[1..], slots, env);
    }
  }

  // ----- the main result -----

  /** Every lookup yields `x`. */
  function Always(x: Bytes): Lookups {
    Lookups(_ => Some(x), _ => Some(x))
  }

  /** The six sequential passes equal one simultaneous substitution, for every environment whose
      values hold no '%', exactly when the template is safe. */
  lemma PassesEqualScanIffSafe(template: Bytes)
    ensures SafeTemplate(template) <==>
            forall env | InertFor(env, SLOTS) :: ExpandVars(template, env) == Scan(template, SLOTS, env)
  {
    SlotsWellOrdered();
    if SafeTemplate(template) {
      forall env | InertFor(env, SLOTS) ensures ExpandVars(template, env) == Scan(template, SLOTS, env) {
        PassesAreScan(template, SLOTS, env);
      }
    } else {
      var env := Always([Trap(template, SLOTS).letter]);
      TalksIsInert(env, SLOTS);
      UnsafeDiverges(template, SLOTS, env);
    }
  }

  predicate PercentIsolated(s: Bytes) {
    forall k :: 0 <= k < |s| - 1 && s[k] == '%' ==> s[k + 1] !in "%~"
  }

  /** A simple sufficient condition: no '%' directly before another '%' or a '~'. */
  lemma {:induction false} IsolatedPercentIsSafe(s: Bytes, slots: seq<Slot>)
    requires PercentIsolated(s)
    ensures SafeScan(s, slots)
    decreases |s|
  {
    if s != "" {
      if Active(s, slots) {
        var h := HeadSlot(s).value;
        IsolatedPercentIsSafe(s[Span(s, h)..], Without(slots, h));
      } else {
        IsolatedPercentIsSafe(s[1..], slots);
      }
    }
  }

  /** An environment in which the host name begins with a slot letter. */
  function HostNamedF1(): Lookups {
    Lookups(_ => None, letter => if letter == 'H' then Some("f1") else Some("fq"))
  }

  /** Where the two differ: the host name completes the first '%' to a reference to the fully
      qualified name. */
  lemma DoublePercentCounterexample()
    ensures InertFor(HostNamedF1(), SLOTS)
    ensures ExpandVars("%%H", HostNamedF1()) == Some("fq1")
    ensures Scan("%%H", SLOTS, HostNamedF1()) == Some("%f1")
  {
    PassesOfDoublePercent();
    HostNamedF1Inert(SLOTS);
    SlotsWellOrdered();
    assert SLOTS[2] == Var('H');
    ScanAfterPercent('H', SLOTS, HostNamedF1());
    assert "%" + "f1" == "%f1";
  }

  lemma HostNamedF1Inert(slots: seq<Slot>)
    ensures InertFor(HostNamedF1(), slots)
  {
  }

  lemma ScanAfterPercent(x: char, slots: seq<Slot>, env: Lookups)
    requires WellOrdered(slots) && Var(x) in slots && env.value(x).Some?
    ensures Scan(['%', '%', x], slots, env) == Some("%" + env.value(x).value)
  {
    var s, r := ['%', '%', x], ['%', x];
    assert s[1..] == r && s[..1] == "%" && r[2..] == "";
    assert env.value(x).value + "" == env.value(x).value;
    assert Scan(r, slots, env) == env.value(x);
  }

  lemma PassesOfDoublePercent()
    ensures ExpandVars("%%H", HostNamedF1()) == Some("fq1")
  {
    var env := HostNamedF1();
    HostPass(env);
    NamePass(env);
    PassesFrom("%%H", "%f1", 2, env);
    PassesFrom("%f1", "fq1", 4, env);
    Untouched("fq1", Var('U'), env);
    PassesFrom("fq1", "fq1", 5, env);
  }

  lemma HostPass(env: Lookups)
    requires env == HostNamedF1()
    ensures ExpandVars("%%H", env) == Passes("%%H", SLOTS[2..], env)
    ensures Pass("%%H", SLOTS[2], env) == Some("%f1")
  {
    var s := "%%H";
    Untouched(s, Home, env);
    PassesFrom(s, s, 0, env);
    Untouched(s, Var('h'), env);
    PassesFrom(s, s, 1, env);
    PassAt(s, 1, Var('H'), env);
    assert s[..1] + "f1" + s[3..] == "%f1";
  }

  lemma NamePass(env: Lookups)
    requires env == HostNamedF1()
    ensures Passes("%f1", SLOTS[3..], env) == Passes("%f1", SLOTS[4..], env)
    ensures Pass("%f1", SLOTS[4], env) == Some("fq1")
  {
    var t := "%f1";
    Untouched(t, Var('u'), env);
    PassesFrom(t, t, 3, env);
    PassAt(t, 0, Var('f'), env);
    assert t[..0] + "fq" + t[2..] == "fq1";
  }

  /** The k-th pass turns `s` into `next`, and the later ones go on from there. */
  lemma PassesFrom(s: Bytes, next: Bytes, k: nat, env: Lookups)
    requires k < |SLOTS| && Pass(s, SLOTS[k], env) == Some(next)
    ensures Passes(s, SLOTS[k..], env) == Passes(next, SLOTS[k + 1..], env)
    ensures k == 0 ==> ExpandVars(s, env) == Passes(s, SLOTS[k..], env)
    ensures k + 1 == |SLOTS| ==> Passes(next, SLOTS[k + 1..], env) == Some(next)
  {
    assert SLOTS[k..][1..] == SLOTS[k + 1..];
    assert SLOTS[0..] == SLOTS;
  }

  lemma PassAt(s: Bytes, i: nat, slot: Slot, env: Lookups)
    requires i < |s| && slot.Var? && StartsWith(s[i..], slot) && env.value(slot.letter).Some?
    requires forall k :: 0 <= k < i ==> !StartsWith(s[k..], slot)
    ensures Pass(s, slot, env) == Some(s[..i] + env.value(slot.letter).value + s[i + 2..])
  {
    PassIsSliced(s, slot, env);
  }

  lemma {:induction false} Untouched(s: Bytes, slot: Slot, env: Lookups)
    requires forall k :: 0 <= k < |s| ==> !StartsWith(s[k..], slot)
    ensures Pass(s, slot, env) == Some(s)
  {
    PassIsSliced(s, slot, env);
  }
}
