/** Unsafe templates in which the user's name is the first value that can complete a '%', with the uid
    still to come: a name that begins with 'U' moves the uid there, and two users share a path. */
module TrappedUsers {
  import opened Outcomes
  import opened Utf8
  import opened Expansions
  import opened Simultaneous
  import opened ExpansionFacts
  import opened Numerals
  import opened Outlines
  import opened UserPaths
  import opened Arguments
  import opened ArgumentFacts
  import opened Host
  import opened RealHosts

  /** The two environments differ in the user and the uid only. */
  ghost predicate AgreeElsewhere(e1: Lookups, e2: Lookups, slots: seq<Slot>) {
    && (Home in slots ==> forall name :: e1.home(name) == e2.home(name))
    && (forall x :: Var(x) in slots && x != 'u' && x != 'U' ==> e1.value(x) == e2.value(x))
  }

  /** Names that begin with 'U', whose uid and rest of the name make the same text. */
  ghost predicate Completing(e1: Lookups, e2: Lookups, z1: Bytes, z2: Bytes) {
    && e1.value('u') == Some("U" + z1) && e2.value('u') == Some("U" + z2)
    && e1.value('U').Some? && e2.value('U').Some?
    && e1.value('U').value + z1 == e2.value('U').value + z2
    && Inert(z1) && Inert(z2)
  }

  ghost predicate Alike(e1: Lookups, e2: Lookups, slots: seq<Slot>, z1: Bytes, z2: Bytes) {
    && WellOrdered(slots) && Talks(e1, slots) && Talks(e2, slots)
    && AgreeElsewhere(e1, e2, slots) && Completing(e1, e2, z1, z2)
  }

  lemma AlikeFewer(e1: Lookups, e2: Lookups, slots: seq<Slot>, fewer: seq<Slot>, z1: Bytes, z2: Bytes)
    requires Alike(e1, e2, slots, z1, z2) && WellOrdered(fewer) && forall slot :: slot in fewer ==> slot in slots
    ensures Alike(e1, e2, fewer, z1, z2)
  {
    TalksFewer(e1, slots, fewer);
    TalksFewer(e2, slots, fewer);
  }

  lemma SameValueAt(s: Bytes, h: Slot, slots: seq<Slot>, e1: Lookups, e2: Lookups)
    requires StartsWith(s, h) && h in slots && h != Var('u') && h != Var('U') && AgreeElsewhere(e1, e2, slots)
    ensures ValueAt(s, h, e1) == ValueAt(s, h, e2)
  {
  }

  lemma {:induction false} PassAgrees(s: Bytes, slot: Slot, slots: seq<Slot>, e1: Lookups, e2: Lookups)
    requires slot in slots && slot != Var('u') && slot != Var('U') && AgreeElsewhere(e1, e2, slots)
    ensures Pass(s, slot, e1) == Pass(s, slot, e2)
  {
    if s != "" {
      if StartsWith(s, slot) {
        SameValueAt(s, slot, slots, e1, e2);
      } else {
        PassAgrees(s[1..], slot, slots, e1, e2);
      }
    }
  }

  lemma {:induction false} PassesAgree(s: Bytes, slots: seq<Slot>, e1: Lookups, e2: Lookups)
    requires AgreeElsewhere(e1, e2, slots) && Var('u') !in slots && Var('U') !in slots
    ensures Passes(s, slots, e1) == Passes(s, slots, e2)
    decreases |slots|
  {
    if slots != [] {
      PassAgrees(s, slots[0], slots, e1, e2);
      var p := Pass(s, slots[0], e1);
      if p.Some? {
        assert forall slot :: slot in slots[1..] ==> slot in slots;
        PassesAgree(p.value, slots[1..], e1, e2);
      }
    }
  }

  lemma TailWellOrdered(slots: seq<Slot>)
    requires slots != [] && WellOrdered(slots)
    ensures WellOrdered(slots[1..]) && Home !in slots[1..] && slots[0] !in slots[1..]
    ensures forall slot :: slot in slots[1..] <==> slot in slots && slot != slots[0]
  {
  }

  /** After a literal '%', the user's 'U' completes the uid. */
  lemma CompletedUid(r: Bytes, slots: seq<Slot>, e: Lookups, z: Bytes)
    requires WellOrdered(slots) && Talks(e, slots) && Var('U') in slots && Home !in slots && Inert(z)
    requires e.value('U').Some?
    ensures Passes("%" + (("U" + z) + r), slots, e) ==
            Join(Some(e.value('U').value + z), Passes(r, Without(slots, Var('U')), e))
  {
    var s := "%" + (("U" + z) + r);
    var fewer := Without(slots, Var('U'));
    assert HeadSlot(s) == Some(Var('U')) && s[2..] == z + r;
    PassesSplitSlot(s, slots, e);
    WithoutMembers(slots, Var('U'));
    PassesInert(z, r, fewer, e);
    var q := Passes(r, fewer, e);
    assert q.Some? ==> e.value('U').value + (z + q.value) == (e.value('U').value + z) + q.value;
  }

  lemma {:induction false} CompletedAlike(t: Bytes, slots: seq<Slot>, e1: Lookups, e2: Lookups, z1: Bytes, z2: Bytes)
    requires Alike(e1, e2, slots, z1, z2)
    requires HeadSlot(t) == Some(Var('u')) && Var('u') in slots && Var('U') in slots
    requires slots[|slots| - 1] == Var('U')
    ensures Passes("%" + t, slots, e1) == Passes("%" + t, slots, e2)
    decreases |slots|
  {
    var s, r, rest := "%" + t, t[2..], slots[1..];
    TailWellOrdered(slots);
    AlikeFewer(e1, e2, slots, rest, z1, z2);
    assert s[1..] == t && s[..1] == "%" && t[0] == '%' && t[1] == 'u';
    if slots[0] == Var('u') {
      assert Pass(t, Var('u'), e1) == Some(("U" + z1) + r) && Pass(t, Var('u'), e2) == Some(("U" + z2) + r);
      assert Pass(s, Var('u'), e1) == Some("%" + (("U" + z1) + r));
      assert Pass(s, Var('u'), e2) == Some("%" + (("U" + z2) + r));
      CompletedUid(r, rest, e1, z1);
      CompletedUid(r, rest, e2, z2);
      WithoutMembers(rest, Var('U'));
      PassesAgree(r, Without(rest, Var('U')), e1, e2);
    } else {
      PassSkipsSlot(t, slots[0], e1);
      PassSkipsSlot(t, slots[0], e2);
      PassTotal(r, slots[0], slots, e1);
      PassAgrees(r, slots[0], slots, e1, e2);
      var t' := t[..2] + Pass(r, slots[0], e1).value;
      assert Pass(s, slots[0], e1) == Some("%" + t') && Pass(s, slots[0], e2) == Some("%" + t');
      assert rest[|rest| - 1] == Var('U');
      CompletedAlike(t', rest, e1, e2, z1, z2);
    }
  }

  lemma CompletingBegins(e1: Lookups, e2: Lookups, z1: Bytes, z2: Bytes)
    requires Completing(e1, e2, z1, z2)
    ensures Begins(e1, Var('u'), 'U') && Begins(e2, Var('u'), 'U')
  {
  }

  /** Where the user's name is the first value that can complete a '%', such users expand alike. */
  lemma {:induction false} TrappedAlike(s: Bytes, slots: seq<Slot>, e1: Lookups, e2: Lookups, z1: Bytes, z2: Bytes)
    requires Alike(e1, e2, slots, z1, z2) && !SafeScan(s, slots)
    requires Trap(s, slots) == Trapped(Var('u'), 'U')
    ensures Passes(s, slots, e1) == Passes(s, slots, e2)
    decreases |s|
  {
    CompletingBegins(e1, e2, z1, z2);
    if Active(s, slots) {
      var h := HeadSlot(s).value;
      var rest, fewer := s[Span(s, h)..], Without(slots, h);
      WithoutMembers(slots, h);
      assert Trap(rest, fewer) == Trap(s, slots);
      assert h != Var('u') && h != Var('U');
      AlikeFewer(e1, e2, slots, fewer, z1, z2);
      TrappedAlike(rest, fewer, e1, e2, z1, z2);
      PassesSplitSlot(s, slots, e1);
      PassesSplitSlot(s, slots, e2);
      SameValueAt(s, h, slots, e1, e2);
    } else {
      var t := s[1..];
      assert s == [s[0]] + t;
      if s[0] == '%' && Active(t, slots) && HeadSlot(t).value != slots[|slots| - 1] {
        assert s == "%" + t;
        CompletedAlike(t, slots, e1, e2, z1, z2);
      } else {
        TrappedAlike(t, slots, e1, e2, z1, z2);
        if s[0] == '%' {
          QuietBefore(t, slots, e1);
          QuietBefore(t, slots, e2);
        }
        PassesSplitCharacter(s[0], t, slots, e1);
        PassesSplitCharacter(s[0], t, slots, e2);
      }
    }
  }

  // ----- a policy file for two users -----

  lemma SharersAlike(names: Names)
    requires Inert(names.host) && names.host != "" && Inert(names.fqdn) && names.fqdn != ""
    ensures var system := Sharers(names);
            Alike(LookupsFor(system, "U"), LookupsFor(system, "U7"), SHARED_SLOTS, "", "7")
  {
    var e1, e2 := LookupsFor(Sharers(names), "U"), LookupsFor(Sharers(names), "U7");
    SharedWellOrdered();
    SharersOfHost(names);
    assert "57" + "" == "5" + "7" && e1.value('H') == Some(names.host) && e1.value('f') == Some(names.fqdn);
    forall x | Var(x) in SHARED_SLOTS ensures SaysText(e1.value(x)) && SaysText(e2.value(x)) {
      SharedLetters(x);
    }
    forall x | Var(x) in SHARED_SLOTS && x != 'u' && x != 'U' ensures e1.value(x) == e2.value(x) {
      SharedLetters(x);
    }
    assert Home !in SHARED_SLOTS;
  }

  /** On every host, two plain users share the file of a strict template whose first value that can
      complete a '%' is the user's name, with the uid still to come. */
  lemma TrappedUserShares(t: Bytes, names: Names)
    requires Valid(t) && Occurs(t, 'u') && !Occurs(t, 'h') && '~' !in t
    requires WellOrdered(SHARED_SLOTS) && !SafeScan(t, SHARED_SLOTS)
    requires Trap(t, SHARED_SLOTS) == Trapped(Var('u'), 'U')
    requires Inert(names.host) && names.host != "" && Inert(names.fqdn) && names.fqdn != ""
    ensures SharedFile(t, names, Sharers(names), "U", "U7")
  {
    var e1, e2 := LookupsFor(Sharers(names), "U"), LookupsFor(Sharers(names), "U7");
    SharersOfHost(names);
    SharersAlike(names);
    TrappedAlike(t, SHARED_SLOTS, e1, e2, "", "7");
    PassesTotal(t, SHARED_SLOTS, e1);
    FileOfTemplate(t, e1);
    FileOfTemplate(t, e2);
  }

  lemma FileOfTemplate(t: Bytes, env: Lookups)
    requires Valid(t) && Occurs(t, 'u') && !Occurs(t, 'h') && '~' !in t
    ensures PolicyFile(StrictOptions(t), env) == Passes(t, SHARED_SLOTS, env)
  {
    NoOccurrenceNoChange(t, env);
    PolicyOfTemplate(t, env);
  }
}
