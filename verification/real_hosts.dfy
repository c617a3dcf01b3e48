/** Templates on hosts as they are: one account database, a host name that is the first label of the
    fully qualified one, and a calling user whom strict mode accepts. */
module RealHosts {
  import opened Outcomes
  import opened Utf8
  import opened Expansions
  import opened Simultaneous
  import opened ExpansionFacts
  import opened Numerals
  import opened Outlines
  import opened UserPaths
  import opened Arguments
  import opened ArgumentFacts
  import opened Host

  /** `split('.').next()` */
  function FirstLabel(s: Bytes): Bytes {
    if s == "" || s[0] == '.' then "" else [s[0]] + FirstLabel(s[1..])
  }

  lemma {:induction false} OneLabel(s: Bytes)
    requires '.' !in s
    ensures FirstLabel(s) == s
  {
    if s != "" {
      assert s[0] in s;
      OneLabel(s[1..]);
    }
  }

  ghost predicate CoherentNames(system: System) {
    && (system.hostname.Some? <==> system.fqdn.Some?)
    && (system.fqdn.Some? ==> system.hostname.value == FirstLabel(system.fqdn.value))
  }

  /** An accepted user of a coherent system whose host names and home directories hold no '%'. */
  ghost predicate RealUser(system: System, user: Bytes) {
    && Coherent(system) && CoherentNames(system) && PercentFreeHost(system)
    && (forall name :: system.homedir(name).Some? ==> Inert(system.homedir(name).value))
    && ValidateStrictUser(user, system).Ok?
  }

  lemma RealIsInert(system: System, user: Bytes)
    requires RealUser(system, user)
    ensures InertFor(LookupsFor(system, user), SLOTS)
  {
    var env := LookupsFor(system, user);
    StrictUserIsPlain(user, system);
    LookupsInert(system, user);
    forall letter | Var(letter) in SLOTS && env.value(letter).Some? ensures Inert(env.value(letter).value) {
      assert letter in "hHufU";
    }
  }

  /** Every name is an account of uid 1 with one home directory, on a host of one label. */
  function Uniform(home: Bytes, host: Bytes): System {
    System(_ => Some(home), _ => Some(1), name => Some(Account(name, 1)), Some(host), Some(host))
  }

  lemma UniformIsReal(home: Bytes, host: Bytes, user: Bytes)
    requires Inert(home) && home != "" && Inert(host) && host != "" && '.' !in host && PlainName(user)
    ensures RealUser(Uniform(home, host), user)
    ensures Talks(LookupsFor(Uniform(home, host), user), SLOTS)
    ensures DecimalText(1) == "1"
  {
    OneLabel(host);
    var env := LookupsFor(Uniform(home, host), user);
    PlainIsInert(user);
    forall letter | Var(letter) in SLOTS ensures SaysText(env.value(letter)) {
      assert letter in "hHufU";
    }
  }

  lemma PlainIsInert(user: Bytes)
    requires PlainName(user)
    ensures Inert(user)
  {
  }

  // ----- the passes and the simultaneous substitution -----

  /** The uid is looked for last, so its value never completes anything. */
  lemma {:induction false} TrapIsNotUid(s: Bytes, slots: seq<Slot>)
    requires WellOrdered(slots) && !SafeScan(s, slots)
    requires Var('U') in slots ==> slots[|slots| - 1] == Var('U')
    ensures Trap(s, slots).slot != Var('U')
    decreases |s|
  {
    if Active(s, slots) {
      var h := HeadSlot(s).value;
      WithoutMembers(slots, h);
      TrapIsNotUid(s[Span(s, h)..], Without(slots, h));
    } else if s[0] == '%' && Active(s[1..], slots) && HeadSlot(s[1..]).value != slots[|slots| - 1] {
    } else {
      TrapIsNotUid(s[1..], slots);
    }
  }

  lemma SlotLetters(p: Slot)
    requires p in SLOTS
    ensures p.Var? ==> p.letter in "hHufU"
  {
  }

  lemma TrapSet(r: Trapped) returns (system: System, user: Bytes)
    requires r.slot in SLOTS && Var(r.letter) in SLOTS && r.slot != Var('U')
    ensures RealUser(system, user) && Talks(LookupsFor(system, user), SLOTS)
    ensures Begins(LookupsFor(system, user), r.slot, r.letter)
  {
    SlotLetters(r.slot);
    SlotLetters(Var(r.letter));
    var home := if r.slot in [Home, Var('h')] then [r.letter] else "x";
    var host := if r.slot in [Var('H'), Var('f')] then [r.letter] else "x";
    user := if r.slot == Var('u') then [r.letter] else "x";
    system := Uniform(home, host);
    UniformIsReal(home, host, user);
    UniformBegins(home, host, user, r);
  }

  lemma UniformBegins(home: Bytes, host: Bytes, user: Bytes, r: Trapped)
    requires r.slot.Var? ==> r.slot.letter in "hHuf"
    requires r.slot in [Home, Var('h')] ==> home == [r.letter]
    requires r.slot in [Var('H'), Var('f')] ==> host == [r.letter]
    requires r.slot == Var('u') ==> user == [r.letter]
    ensures Begins(LookupsFor(Uniform(home, host), user), r.slot, r.letter)
  {
  }

  /** The six passes equal one simultaneous substitution for every accepted user of every real host
      exactly when the template is safe. */
  lemma SafeOnRealHostsIff(template: Bytes)
    ensures SafeTemplate(template) <==>
            forall system, user | RealUser(system, user) ::
              ExpandVars(template, LookupsFor(system, user)) == Scan(template, SLOTS, LookupsFor(system, user))
  {
    SlotsWellOrdered();
    if SafeTemplate(template) {
      forall system, user | RealUser(system, user)
        ensures ExpandVars(template, LookupsFor(system, user)) == Scan(template, SLOTS, LookupsFor(system, user))
      {
        RealIsInert(system, user);
        PassesAreScan(template, SLOTS, LookupsFor(system, user));
      }
    } else {
      assert SLOTS[|SLOTS| - 1] == Var('U');
      TrapIsNotUid(template, SLOTS);
      var system, user := TrapSet(Trap(template, SLOTS));
      UnsafeDiverges(template, SLOTS, LookupsFor(system, user));
    }
  }

  // ----- keys -----

  /** Expansion keeps the key for every accepted user of every real host exactly when the key holds
      no slot. */
  lemma KeyStableOnRealHostsIff(k: Bytes, v: Bytes)
    requires '=' !in k
    ensures SlotFree(k, SLOTS) <==>
            forall system, user | RealUser(system, user) ::
              KeptKey(k, ExpandVars(k + "=" + v, LookupsFor(system, user)))
  {
    if SlotFree(k, SLOTS) {
      forall system, user | RealUser(system, user)
        ensures KeptKey(k, ExpandVars(k + "=" + v, LookupsFor(system, user)))
      {
        ExpansionKeepsKey(k, v, LookupsFor(system, user));
      }
    } else {
      RealKeyChanges(k, v);
    }
  }

  lemma RealKeyChanges(k: Bytes, v: Bytes)
    requires '=' !in k && !SlotFree(k, SLOTS)
    ensures RealUser(Uniform("x", "x"), "x")
    ensures !KeptKey(k, ExpandVars(k + "=" + v, LookupsFor(Uniform("x", "x"), "x")))
  {
    var env := LookupsFor(Uniform("x", "x"), "x");
    UniformIsReal("x", "x", "x");
    DullUniform();
    KeyChanges(k, v, env);
  }

  lemma DullUniform()
    ensures DullEnvironment(LookupsFor(Uniform("x", "x"), "x"))
  {
    var env := LookupsFor(Uniform("x", "x"), "x");
    assert DecimalText(1) == "1";
    forall x | x in "hHufU" ensures DullText(env.value(x)) {
    }
  }

  predicate KeptKey(k: Bytes, expanded: Option<Bytes>) {
    expanded.Some? ==> SplitOnce(expanded.value).Some? && SplitOnce(expanded.value).value.key == k
  }

  // ----- a '%' directly before the user -----

  lemma NoSuchSlot(s: Bytes, slot: Slot, env: Lookups)
    requires forall k :: 0 <= k < |s| ==> s[k] != '~' && (s[k] == '%' && k + 1 < |s| ==> Var(s[k + 1]) != slot)
    ensures Pass(s, slot, env) == Some(s)
  {
    forall k | 0 <= k < |s| ensures !StartsWith(s[k..], slot) {
      assert s[k..][0] == s[k] && (k + 1 < |s| ==> s[k..][1] == s[k + 1]);
    }
    Untouched(s, slot, env);
  }

  lemma UserCompletes(a: Bytes, b: Bytes, z: Bytes, y: Bytes, env: Lookups)
    requires Inert(a) && Inert(b) && Inert(z) && '~' !in a && '~' !in b && '~' !in z
    requires env.value('u') == Some("U" + z) && env.value('U') == Some(y)
    ensures ExpandVars(a + ("%%u" + b), env) == Some(a + (y + (z + b)))
  {
    var t, r := a + ("%U" + (z + b)), a + (y + (z + b));
    UpToUser(a, b, z, env);
    PercentsOf(a, "%U", z + b);
    NoSuchSlot(t, Var('f'), env);
    PassesFrom(t, t, 4, env);
    OnePass(t, a, 'U', z + b, y, env);
    PassesFrom(t, r, 5, env);
  }

  lemma UpToUser(a: Bytes, b: Bytes, z: Bytes, env: Lookups)
    requires Inert(a) && Inert(b) && Inert(z) && '~' !in a && '~' !in b && '~' !in z
    requires env.value('u') == Some("U" + z)
    ensures ExpandVars(a + ("%%u" + b), env) == Passes(a + ("%U" + (z + b)), SLOTS[4..], env)
  {
    var s, t := a + ("%%u" + b), a + ("%U" + (z + b));
    PercentsOf(a, "%%u", b);
    NoSuchSlot(s, Home, env);
    PassesFrom(s, s, 0, env);
    NoSuchSlot(s, Var('h'), env);
    PassesFrom(s, s, 1, env);
    NoSuchSlot(s, Var('H'), env);
    PassesFrom(s, s, 2, env);
    UserPass(a, b, z, env);
    PassesFrom(s, t, 3, env);
  }

  lemma UserPass(a: Bytes, b: Bytes, z: Bytes, env: Lookups)
    requires Inert(a) && Inert(b) && '~' !in a && '~' !in b && env.value('u') == Some("U" + z)
    ensures Pass(a + ("%%u" + b), Var('u'), env) == Some(a + ("%U" + (z + b)))
  {
    var s := a + ("%%u" + b);
    PercentsOf(a, "%%u", b);
    assert a + "%" + (['%', 'u'] + b) == s && a + "%" + (("U" + z) + b) == a + ("%U" + (z + b));
    OnePass(s, a + "%", 'u', b, "U" + z, env);
  }

  lemma PercentsOf(a: Bytes, mid: Bytes, b: Bytes)
    requires Inert(a) && Inert(b) && '~' !in a && '~' !in b && mid in ["%%u", "%U"]
    ensures var s := a + (mid + b);
            && (forall k :: 0 <= k < |s| ==> s[k] != '~')
            && (forall k :: 0 <= k < |s| && s[k] == '%' ==> |a| <= k < |a| + |mid| - 1)
            && (forall k :: 0 <= k < |mid| ==> s[|a| + k] == mid[k])
  {
    var s := a + (mid + b);
    forall k | 0 <= k < |s| ensures s[k] != '~' && (s[k] == '%' ==> |a| <= k < |a| + |mid| - 1) {
      if k < |a| {
        assert s[k] == a[k] && a[k] in a;
      } else if k >= |a| + |mid| {
        assert s[k] == b[k - |a| - |mid|] && s[k] in b;
      } else {
        assert s[k] == mid[k - |a|];
      }
    }
  }

  lemma OnePass(s: Bytes, a: Bytes, x: char, b: Bytes, v: Bytes, env: Lookups)
    requires s == a + (['%', x] + b) && env.value(x) == Some(v)
    requires forall k :: 0 <= k < |a| ==> !(s[k] == '%' && s[k + 1] == x)
    ensures Pass(s, Var(x), env) == Some(a + (v + b))
  {
    assert s[|a|] == '%' && s[|a| + 1] == x;
    forall k | 0 <= k < |a| ensures !StartsWith(s[k..], Var(x)) {
      assert s[k..][0] == s[k] && s[k..][1] == s[k + 1];
    }
    PassAt(s, |a|, Var(x), env);
    assert s[..|a|] == a && s[|a| + 2..] == b && a + v + b == a + (v + b);
  }

  /** Two plain names that begin with 'U'. */
  function Sharers(names: Names): System {
    TwoUsers(Account("U", 57), Account("U7", 5), names)
  }

  lemma SharersOfHost(names: Names)
    ensures UsersOfHost(names, Sharers(names), "U", "U7")
    ensures LookupsFor(Sharers(names), "U").value('u') == Some("U" + "")
    ensures LookupsFor(Sharers(names), "U").value('U') == Some("57")
    ensures LookupsFor(Sharers(names), "U7").value('u') == Some("U" + "7")
    ensures LookupsFor(Sharers(names), "U7").value('U') == Some("5")
  {
    Numeral57();
    assert "U" + "" == "U" && "U" + "7" == "U7";
  }

  lemma SharersExpand(a: Bytes, b: Bytes, e1: Lookups, e2: Lookups)
    requires Inert(a) && Inert(b) && '~' !in a && '~' !in b
    requires e1.value('u') == Some("U" + "") && e1.value('U') == Some("57")
    requires e2.value('u') == Some("U" + "7") && e2.value('U') == Some("5")
    ensures ExpandVars(a + ("%%u" + b), e1).Some?
    ensures ExpandVars(a + ("%%u" + b), e1) == ExpandVars(a + ("%%u" + b), e2)
  {
    UserCompletes(a, b, "", "57", e1);
    UserCompletes(a, b, "7", "5", e2);
    assert a + ("57" + ("" + b)) == a + ("5" + ("7" + b));
  }

  /** With a literal '%' directly before `%u`, a user name that begins with 'U' completes it to the
      uid: on every host two plain users share the file of such a strict template, as "/%%u". */
  lemma PercentBeforeUserShares(a: Bytes, b: Bytes, names: Names)
    requires Inert(a) && Inert(b) && '~' !in a && '~' !in b && Valid(a) && Valid(b)
    ensures SharedFile(a + ("%%u" + b), names, Sharers(names), "U", "U7")
  {
    var t := a + ("%%u" + b);
    var e1, e2 := LookupsFor(Sharers(names), "U"), LookupsFor(Sharers(names), "U7");
    SharersOfHost(names);
    SharersExpand(a, b, e1, e2);
    FileOfPercents(a, b, e1);
    FileOfPercents(a, b, e2);
  }

  lemma FileOfPercents(a: Bytes, b: Bytes, env: Lookups)
    requires Inert(a) && Inert(b) && '~' !in a && '~' !in b && Valid(a) && Valid(b)
    ensures var t := a + ("%%u" + b); PolicyFile(StrictOptions(t), env) == ExpandVars(t, env)
  {
    var t := a + ("%%u" + b);
    PercentsOf(a, "%%u", b);
    ValidAround(a, b);
    assert t[|a|] == t[|a| + 1] == '%' && t[|a| + 2] == 'u';
    SharesExpansion(t, env);
  }

  lemma Numeral57()
    ensures DecimalText(57) == "57" && DecimalText(5) == "5"
  {
    assert DecimalText(5) == "5";
  }

  lemma ValidAround(a: Bytes, b: Bytes)
    requires Valid(a) && Valid(b)
    ensures Valid(a + ("%%u" + b))
  {
    AsciiIsValid("%%u");
    ValidConcat("%%u", b);
    ValidConcat(a, "%%u" + b);
  }

  lemma SharesExpansion(t: Bytes, env: Lookups)
    requires Valid(t) && exists k :: 0 <= k < |t| - 2 && t[k] == t[k + 1] == '%' && t[k + 2] == 'u'
    requires forall k :: 0 <= k < |t| ==> t[k] != '~' && (t[k] == '%' && k + 1 < |t| ==> t[k + 1] != 'h')
    ensures PolicyFile(StrictOptions(t), env) == ExpandVars(t, env)
  {
    var k :| 0 <= k < |t| - 2 && t[k] == t[k + 1] == '%' && t[k + 2] == 'u';
    assert t[k + 1] == '%' && t[k + 1 + 1] == 'u';
    PolicyOfTemplate(t, env);
  }
}
