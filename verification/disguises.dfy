/** Where the strict checks and the assignment part ways: the checks look at arguments as written, the
    assignment at arguments as expanded.  An argument is disguised when expansion turns its key into
    one whose arguments are checked. */
module Disguises {
  import opened Outcomes
  import opened Utf8
  import opened Expansions
  import opened Simultaneous
  import opened ExpansionFacts
  import opened Numerals
  import opened UserPaths
  import opened Arguments
  import opened ArgumentFacts
  import opened Host
  import opened RealHosts

  const TRUST_KEYS: seq<Bytes> := ["file", "ca_keys_file", "authorized_keys_command"]

  /** The slots left once the user is expanded. */
  const LATER: seq<Slot> := [Home, Var('h'), Var('H'), Var('f'), Var('U')]

  predicate Written(arg: Bytes, key: Bytes) {
    key + "=" <= arg
  }

  predicate VariableAt(s: Bytes, k: nat, x: char) {
    k + 1 < |s| && s[k] == '%' && s[k + 1] == x
  }

  /** What follows the user can expand to something that starts with `need`: by itself, or up to a
      slot other than the uid, whose value can supply the rest. */
  predicate Continues(s: Bytes, need: Bytes) {
    var k := FirstActive(s, LATER);
    need <= s[..k] || (k < |s| && s[..k] <= need && !VariableAt(s, k, 'U'))
  }

  /** The argument holds a slot, and the text before it is part of the key.  If the slot is the uid,
      digits follow, as in no key; if it is the user, the name must supply more of the key, without
      the '=', and what follows the rest; any other value can supply all of it. */
  predicate MayBecome(arg: Bytes, key: Bytes) {
    var j := FirstActive(arg, SLOTS);
    && j < |arg| && arg[..j] <= key && !VariableAt(arg, j, 'U')
    && (VariableAt(arg, j, 'u') ==>
          exists m: nat :: j < m <= |key| && Continues(arg[j + 2..], (key + "=")[m..]))
  }

  // ----- expansion up to the first slot -----

  /** The text before the first slot, its value, and what follows it. */
  lemma {:induction false} ScanAtFirst(s: Bytes, j: nat, slots: seq<Slot>, env: Lookups)
    requires ActiveAt(s, j, slots) && NoneBefore(s, j, slots)
    ensures Active(s[j..], slots)
    ensures var h := HeadSlot(s[j..]).value;
            Scan(s, slots, env) == Join(Some(s[..j]),
              Join(ValueAt(s[j..], h, env), Scan(s[j..][Span(s[j..], h)..], Without(slots, h), env)))
    decreases j
  {
    assert s[0..] == s;
    ActiveIsActiveAt(s, j, slots);
    ActiveIsActiveAt(s, 0, slots);
    if j == 0 {
      var r := Scan(s, slots, env);
      assert r.Some? ==> s[..0] + r.value == r.value;
    } else {
      var t := s[1..];
      assert forall k: nat :: ActiveAt(t, k, slots) <==> ActiveAt(s, k + 1, slots);
      forall k | 0 <= k < j - 1 ensures !ActiveAt(t, k, slots) {
        assert !ActiveAt(s, k + 1, slots);
      }
      ScanAtFirst(t, j - 1, slots, env);
      assert t[j - 1..] == s[j..];
      assert s[..j] == s[..1] + t[..j - 1];
      var h := HeadSlot(s[j..]).value;
      JoinAgain(s[..1], t[..j - 1],
                Join(ValueAt(s[j..], h, env), Scan(s[j..][Span(s[j..], h)..], Without(slots, h), env)));
    }
  }

  lemma FirstParts(s: Bytes, j: nat, slots: seq<Slot>, env: Lookups) returns (h: Slot, v: Bytes, after: Bytes)
    requires ActiveAt(s, j, slots) && NoneBefore(s, j, slots) && Scan(s, slots, env).Some?
    ensures HeadSlot(s[j..]) == Some(h) && h in slots && ValueAt(s[j..], h, env) == Some(v)
    ensures Scan(s[j..][Span(s[j..], h)..], Without(slots, h), env) == Some(after)
    ensures Scan(s, slots, env).value == s[..j] + (v + after)
    ensures VariableAt(s, j, 'U') ==> h == Var('U')
    ensures VariableAt(s, j, 'u') ==> h == Var('u')
  {
    ScanAtFirst(s, j, slots, env);
    h := HeadSlot(s[j..]).value;
    v := ValueAt(s[j..], h, env).value;
    after := Scan(s[j..][Span(s[j..], h)..], Without(slots, h), env).value;
  }

  lemma JoinAgain(a: Bytes, b: Bytes, r: Option<Bytes>)
    ensures Join(Some(a), Join(Some(b), r)) == Join(Some(a + b), r)
  {
    if r.Some? {
      assert a + (b + r.value) == (a + b) + r.value;
    }
  }

  lemma {:induction false} ScanNoSlot(s: Bytes, slots: seq<Slot>, env: Lookups)
    requires NoneBefore(s, |s|, slots)
    ensures Scan(s, slots, env) == Some(s)
  {
    if s != "" {
      assert s[0..] == s;
      ActiveIsActiveAt(s, 0, slots);
      assert !ActiveAt(s, 0, slots);
      var t := s[1..];
      assert forall k: nat :: ActiveAt(t, k, slots) <==> ActiveAt(s, k + 1, slots);
      forall k | 0 <= k < |t| ensures !ActiveAt(t, k, slots) {
        assert !ActiveAt(s, k + 1, slots);
      }
      ScanNoSlot(t, slots, env);
      assert s == s[..1] + t;
    }
  }

  lemma {:induction false} ScanTotal(s: Bytes, slots: seq<Slot>, env: Lookups)
    requires WellOrdered(slots) && Talks(env, slots)
    ensures Scan(s, slots, env).Some?
    decreases |s|
  {
    if s != "" {
      if Active(s, slots) {
        var h := HeadSlot(s).value;
        TalksAt(s, h, slots, env);
        WithoutMembers(slots, h);
        TalksFewer(env, slots, Without(slots, h));
        ScanTotal(s[Span(s, h)..], Without(slots, h), env);
      } else {
        ScanTotal(s[1..], slots, env);
      }
    }
  }

  lemma LaterSlots()
    ensures WellOrdered(SLOTS) && WellOrdered(LATER) && Var('u') in SLOTS && Without(SLOTS, Var('u')) == LATER
  {
    var s := SLOTS;
    assert s[3] == Var('u');
    assert s[1..][0] == s[1] && s[1..][1..] == s[2..] && s[2..][0] == s[2] && s[2..][1..] == s[3..];
    assert s[3..][0] == s[3] && s[3..][1..] == [s[4], s[5]];
    assert Without(s[3..], Var('u')) == [s[4], s[5]];
    assert Without(s[2..], Var('u')) == [s[2]] + [s[4], s[5]];
    assert Without(s[1..], Var('u')) == [s[1]] + ([s[2]] + [s[4], s[5]]);
  }

  lemma FirstOf(s: Bytes, j: nat, slots: seq<Slot>)
    requires j == FirstActive(s, slots)
    ensures NoneBefore(s, j, slots)
    ensures j < |s| ==> ActiveAt(s, j, slots)
  {
  }

  // ----- what becomes of a key -----

  /** Neither digits nor '=' are in the key. */
  predicate KeyLike(key: Bytes) {
    key != "" && forall i :: 0 <= i < |key| ==> PlainNameByte(key[i]) && !('0' <= key[i] <= '9')
  }

  predicate DigitFree(s: Bytes) {
    forall i :: 0 <= i < |s| ==> !('0' <= s[i] <= '9')
  }

  lemma Comparable(a: Bytes, b: Bytes, r: Bytes)
    requires a <= r && b <= r
    ensures a <= b || b <= a
  {
    if |a| <= |b| {
      assert a == r[..|a|] == b[..|a|];
    } else {
      assert b == r[..|b|] == a[..|b|];
    }
  }

  /** Where the expansion needs text, the uid has digits. */
  lemma UidSupplies(before: Bytes, uid: Uid, after: Bytes, need: Bytes)
    requires need <= before + (DecimalText(uid) + after) && before <= need && DigitFree(need)
    ensures before == need
  {
    var r := before + (DecimalText(uid) + after);
    assert r[|before|] == DecimalText(uid)[0];
  }

  lemma ContinuesOnlyIf(s: Bytes, need: Bytes, env: Lookups, uid: Option<Uid>)
    requires DigitFree(need) && UidValue(env, uid)
    requires var r := Scan(s, LATER, env); r.Some? && need <= r.value
    ensures Continues(s, need)
  {
    var k := FirstActive(s, LATER);
    FirstOf(s, k, LATER);
    if k == |s| {
      ScanNoSlot(s, LATER, env);
      assert s[..k] == s;
    } else {
      var h, v, after := FirstParts(s, k, LATER, env);
      Comparable(s[..k], need, Scan(s, LATER, env).value);
      if VariableAt(s, k, 'U') && s[..k] <= need {
        UidSupplies(s[..k], uid.value, after, need);
      }
    }
  }

  ghost predicate UidValue(env: Lookups, uid: Option<Uid>) {
    env.value('U') == if uid.Some? then Some(DecimalText(uid.value)) else None
  }

  lemma UserSupplies(before: Bytes, user: Bytes, after: Bytes, key: Bytes)
    requires key + "=" <= before + (user + after) && before <= key && PlainName(user)
    ensures var m := |before| + |user|; |before| < m <= |key| && (key + "=")[m..] <= after
  {
    var r, need, m := before + (user + after), key + "=", |before| + |user|;
    assert forall i | 0 <= i < |user| :: r[|before| + i] == user[i];
    assert r[|key|] == need[|key|] == '=';
    assert after == r[m..];
    assert need[m..] == r[..|need|][m..];
    assert forall i | 0 <= i < |need| - m :: need[m..][i] == r[m + i] == after[i];
  }

  /** An argument that some accepted user's expansion turns into `key=` may become it. */
  lemma BecomesOnlyIf(arg: Bytes, key: Bytes, system: System, user: Bytes)
    requires RealUser(system, user) && PercentIsolated(arg) && !Written(arg, key) && KeyLike(key)
    requires var r := ExpandVars(arg, LookupsFor(system, user)); r.Some? && key + "=" <= r.value
    ensures MayBecome(arg, key)
  {
    var env := LookupsFor(system, user);
    RealValues(system, user);
    assert ExpandVars(arg, env) == Scan(arg, SLOTS, env) by { RealScan(arg, system, user); }
    ScanBecomesOnlyIf(arg, key, env, user, system.uid(user));
  }

  lemma RealValues(system: System, user: Bytes)
    requires RealUser(system, user)
    ensures var env := LookupsFor(system, user);
            env.value('u') == Some(user) && PlainName(user) && UidValue(env, system.uid(user))
  {
  }

  lemma ScanBecomesOnlyIf(arg: Bytes, key: Bytes, env: Lookups, user: Bytes, uid: Option<Uid>)
    requires !Written(arg, key) && KeyLike(key)
    requires env.value('u') == Some(user) && PlainName(user) && UidValue(env, uid)
    requires var r := Scan(arg, SLOTS, env); r.Some? && key + "=" <= r.value
    ensures MayBecome(arg, key)
  {
    var j := FirstActive(arg, SLOTS);
    FirstOf(arg, j, SLOTS);
    if j == |arg| {
      ScanNoSlot(arg, SLOTS, env);
    } else {
      var h, v, after := FirstParts(arg, j, SLOTS, env);
      BeforeSlot(arg, j, key, Scan(arg, SLOTS, env).value);
      KeyHasNoDigit(key);
      InKey(arg[..j], key);
      if VariableAt(arg, j, 'U') {
        UidSupplies(arg[..j], uid.value, after, key + "=");
      }
      if VariableAt(arg, j, 'u') {
        AfterUser(arg, j, key, env, user, uid, after);
      }
    }
  }

  lemma AfterUser(arg: Bytes, j: nat, key: Bytes, env: Lookups, user: Bytes, uid: Option<Uid>, after: Bytes)
    requires VariableAt(arg, j, 'u') && arg[..j] <= key && KeyLike(key) && PlainName(user) && UidValue(env, uid)
    requires Var('u') in SLOTS && Scan(arg[j..][2..], Without(SLOTS, Var('u')), env) == Some(after)
    requires key + "=" <= arg[..j] + (user + after)
    ensures exists m: nat :: j < m <= |key| && Continues(arg[j + 2..], (key + "=")[m..])
  {
    LaterSlots();
    assert arg[j..][2..] == arg[j + 2..];
    UserSupplies(arg[..j], user, after, key);
    KeyHasNoDigit(key);
    var m := j + |user|;
    ContinuesOnlyIf(arg[j + 2..], (key + "=")[m..], env, uid);
  }

  lemma KeyHasNoDigit(key: Bytes)
    requires KeyLike(key)
    ensures DigitFree(key + "=") && forall m :: 0 <= m <= |key| ==> DigitFree((key + "=")[m..])
  {
  }

  lemma BeforeSlot(arg: Bytes, j: nat, key: Bytes, r: Bytes)
    requires j <= |arg| && arg[..j] <= r && key + "=" <= r && !Written(arg, key)
    ensures arg[..j] <= key
  {
    Comparable(arg[..j], key + "=", r);
    PrefixOfPrefix(key + "=", arg, j);
    assert forall i | 0 <= i < |key| :: (key + "=")[i] == key[i];
  }

  lemma PrefixOfPrefix(need: Bytes, s: Bytes, j: nat)
    requires j <= |s|
    ensures need <= s[..j] ==> need <= s
  {
    if need <= s[..j] {
      assert s[..|need|] == s[..j][..|need|];
    }
  }

  lemma RealScan(arg: Bytes, system: System, user: Bytes)
    requires RealUser(system, user) && PercentIsolated(arg)
    ensures ExpandVars(arg, LookupsFor(system, user)) == Scan(arg, SLOTS, LookupsFor(system, user))
  {
    SlotsWellOrdered();
    RealIsInert(system, user);
    IsolatedIsScan(arg, SLOTS, LookupsFor(system, user));
  }

  // ----- an environment in which it does -----

  lemma ContinuesWith(s: Bytes, need: Bytes, x: Bytes, env: Lookups)
    requires Continues(s, need) && Talks(env, SLOTS) && GivesAll(env, x)
    requires var k := FirstActive(s, LATER); k <= |need| && s[..k] <= need ==> need[k..] <= x
    ensures var r := Scan(s, LATER, env); r.Some? && need <= r.value
  {
    var k := FirstActive(s, LATER);
    LaterSlots();
    LaterAreSlots();
    TalksFewer(env, SLOTS, LATER);
    ScanTotal(s, LATER, env);
    FirstOf(s, k, LATER);
    var r := Scan(s, LATER, env).value;
    if k == |s| {
      ScanNoSlot(s, LATER, env);
      assert s[..k] == s;
    } else {
      var h, v, after := FirstParts(s, k, LATER, env);
      if need <= s[..k] {
        PrefixOfPrefix(need, r, k);
        assert r[..k] == s[..k];
      } else {
        GivenAt(s, k, h, v, env, x);
        SuppliedBefore(s[..k], x, after, need);
      }
    }
  }

  lemma GivenAt(s: Bytes, k: nat, h: Slot, v: Bytes, env: Lookups, x: Bytes)
    requires k < |s| && HeadSlot(s[k..]) == Some(h) && ValueAt(s[k..], h, env) == Some(v) && GivesAll(env, x)
    requires h.Var? ==> h.letter in "hHfU" && !VariableAt(s, k, 'U')
    ensures v == x
  {
  }

  lemma SuppliedBefore(before: Bytes, x: Bytes, after: Bytes, need: Bytes)
    requires before <= need && need[|before|..] <= x
    ensures need <= before + (x + after)
  {
    assert before + x <= before + (x + after);
    Supplied(before, x, before + (x + after), need);
  }

  /** Every slot but the user and the uid yields `x`. */
  ghost predicate GivesAll(env: Lookups, x: Bytes) {
    (forall name :: env.home(name) == Some(x)) && forall c :: c in "hHf" ==> env.value(c) == Some(x)
  }

  lemma UniformGives(x: Bytes, user: Bytes)
    requires Inert(x) && x != "" && '.' !in x && PlainName(user)
    ensures RealUser(Uniform(x, x), user) && Talks(LookupsFor(Uniform(x, x), user), SLOTS)
    ensures GivesAll(LookupsFor(Uniform(x, x), user), x)
    ensures LookupsFor(Uniform(x, x), user).value('u') == Some(user)
  {
    UniformIsReal(x, x, user);
  }

  lemma LaterAreSlots()
    ensures forall slot :: slot in LATER ==> slot in SLOTS && (slot.Var? ==> slot.letter in "hHfU")
  {
    LaterSlots();
    WithoutMembers(SLOTS, Var('u'));
    forall slot | slot in LATER && slot.Var? ensures slot.letter in "hHfU" {
      SlotLetters(slot);
    }
  }

  lemma Supplied(before: Bytes, x: Bytes, r: Bytes, need: Bytes)
    requires before <= need && before + x <= r && need[|before|..] <= x
    ensures need <= r
  {
    assert need == before + need[|before|..];
    var w := before + x;
    assert need == w[..|need|] == r[..|need|];
  }

  lemma KeyPieces(key: Bytes, m: nat)
    requires KeyLike(key) && m <= |key|
    ensures var x := (key + "=")[m..] + "x"; Inert(x) && x != "" && '.' !in x
  {
    var x := (key + "=")[m..] + "x";
    forall i | 0 <= i < |x| ensures x[i] != '%' && x[i] != '.' {
      assert i < |key| - m ==> x[i] == key[m + i];
    }
  }

  lemma PlainPart(key: Bytes, j: nat, m: nat)
    requires KeyLike(key) && j < m <= |key|
    ensures PlainName((key + "=")[j..m])
  {
    assert forall i | 0 <= i < m - j :: (key + "=")[j..m][i] == key[j + i];
  }

  /** An argument that may become `key=` does for some accepted user of a real host. */
  lemma BecomesIf(arg: Bytes, key: Bytes) returns (system: System, user: Bytes)
    requires MayBecome(arg, key) && PercentIsolated(arg) && KeyLike(key)
    ensures RealUser(system, user) && Talks(LookupsFor(system, user), SLOTS)
    ensures var r := ExpandVars(arg, LookupsFor(system, user)); r.Some? && key + "=" <= r.value
  {
    var j := FirstActive(arg, SLOTS);
    var x;
    if VariableAt(arg, j, 'u') {
      var m: nat :| j < m <= |key| && Continues(arg[j + 2..], (key + "=")[m..]);
      x := Remainder(arg[j + 2..], key, m);
      PlainPart(key, j, m);
      user := (key + "=")[j..m];
      UniformGives(x, user);
      ByUser(arg, key, j, m, x, LookupsFor(Uniform(x, x), user));
    } else {
      KeyPieces(key, j);
      x, user := (key + "=")[j..] + "x", "x";
      UniformGives(x, user);
      ByOther(arg, key, j, x, LookupsFor(Uniform(x, x), user));
    }
    system := Uniform(x, x);
    RealScan(arg, system, user);
  }

  lemma InKey(before: Bytes, key: Bytes)
    requires before <= key
    ensures before <= key + "="
  {
  }

  /** What the first slot after the user has to supply. */
  lemma Remainder(s: Bytes, key: Bytes, m: nat) returns (x: Bytes)
    requires KeyLike(key) && m <= |key|
    ensures Inert(x) && x != "" && '.' !in x
    ensures var need, k := (key + "=")[m..], FirstActive(s, LATER); k <= |need| && s[..k] <= need ==> need[k..] <= x
  {
    var need, k := (key + "=")[m..], FirstActive(s, LATER);
    x := "x";
    if k <= |need| && m + k <= |key| {
      x := (key + "=")[m + k..] + "x";
      assert need[k..] == (key + "=")[m + k..];
      KeyPieces(key, m + k);
    } else if k <= |need| {
      assert need[k..] == "";
    }
  }

  lemma ByOther(arg: Bytes, key: Bytes, j: nat, x: Bytes, env: Lookups)
    requires Talks(env, SLOTS) && GivesAll(env, x)
    requires j == FirstActive(arg, SLOTS) < |arg| && arg[..j] <= key && x == (key + "=")[j..] + "x"
    requires !VariableAt(arg, j, 'U') && !VariableAt(arg, j, 'u')
    ensures var r := Scan(arg, SLOTS, env); r.Some? && key + "=" <= r.value
  {
    SlotsWellOrdered();
    ScanTotal(arg, SLOTS, env);
    FirstOf(arg, j, SLOTS);
    var h, v, after := FirstParts(arg, j, SLOTS, env);
    SlotLetters(h);
    assert v == x;
    InKey(arg[..j], key);
    var r := Scan(arg, SLOTS, env).value;
    assert arg[..j] + x <= r;
    Supplied(arg[..j], x, r, key + "=");
  }

  lemma ByUser(arg: Bytes, key: Bytes, j: nat, m: nat, x: Bytes, env: Lookups)
    requires Talks(env, SLOTS) && GivesAll(env, x) && j < m <= |key|
    requires env.value('u') == Some((key + "=")[j..m])
    requires j == FirstActive(arg, SLOTS) < |arg| && arg[..j] <= key && VariableAt(arg, j, 'u')
    requires var s, need := arg[j + 2..], (key + "=")[m..];
             var k := FirstActive(s, LATER);
             Continues(s, need) && (k <= |need| && s[..k] <= need ==> need[k..] <= x)
    ensures var r := Scan(arg, SLOTS, env); r.Some? && key + "=" <= r.value
  {
    SlotsWellOrdered();
    ScanTotal(arg, SLOTS, env);
    FirstOf(arg, j, SLOTS);
    var h, v, after := FirstParts(arg, j, SLOTS, env);
    LaterSlots();
    assert arg[j..][2..] == arg[j + 2..];
    ContinuesWith(arg[j + 2..], (key + "=")[m..], x, env);
    assert arg[..j] == (key + "=")[..j];
    Assembled(key + "=", j, m, after);
  }

  lemma Assembled(need: Bytes, j: nat, m: nat, after: Bytes)
    requires j <= m <= |need| && need[m..] <= after
    ensures need <= need[..j] + (need[j..m] + after)
  {
    var r := need[..j] + (need[j..m] + after);
    assert need == need[..j] + (need[j..m] + need[m..]);
    forall i | 0 <= i < |need| ensures need[i] == r[i] {
      assert i >= m ==> need[m..][i - m] == after[i - m];
    }
  }

  // ----- the checks do not see it -----

  lemma KeysAreKeyLike(key: Bytes)
    requires key in TRUST_KEYS
    ensures KeyLike(key) && FieldNamed(key).Some? && FieldNamed(key).value != Timeout
  {
  }

  lemma NotWritten(arg: Bytes, j: nat, key: Bytes, other: Bytes)
    requires j < |arg| && arg[j] in "%~" && arg[..j] <= key && KeyLike(key) && KeyLike(other)
    ensures !Written(arg, other)
  {
    assert (other + "=")[|other|] == '=';
    assert j < |other| ==> (other + "=")[j] == other[j];
    assert |other| < j ==> arg[..j][|other|] == key[|other|];
  }

  lemma DisguiseAllowed(arg: Bytes, key: Bytes)
    requires MayBecome(arg, key) && key in TRUST_KEYS
    ensures WordNamed(arg) == NoWord && TrustSourceAllowed(arg) && FileTemplate(arg).None?
  {
    var j := FirstActive(arg, SLOTS);
    assert arg[j] in "%~";
    KeysAreKeyLike(key);
    NotASlottedWord(arg, j);
    assert TRUST_KEYS[0] == "file" && "file" + "=" == "file=";
    KeysAreKeyLike("file");
    NotWritten(arg, j, key, "file");
    var parts := SplitOnce(arg);
    if parts.Some? && parts.value.key in TRUST_KEYS {
      KeysAreKeyLike(parts.value.key);
      NotWritten(arg, j, key, parts.value.key);
      assert false;
    }
  }

  lemma NotASlottedWord(arg: Bytes, j: nat)
    requires j < |arg| && arg[j] in "%~"
    ensures WordNamed(arg) == NoWord
  {
  }

  lemma NamedKeys(k: Bytes, key: Bytes)
    requires key in TRUST_KEYS && FieldNamed(k) == FieldNamed(key)
    ensures k == key
  {
  }

  ghost predicate SetsField(arg: Bytes, key: Bytes, env: Lookups)
    requires key in TRUST_KEYS
  {
    FieldNamed(key).Some? && SameField(EffectOf(arg, true, env), Sets(FieldNamed(key).value, Flag))
  }

  lemma ExpandsToKey(arg: Bytes, key: Bytes, env: Lookups)
    requires key in TRUST_KEYS && SetsField(arg, key, env)
    ensures var r := ExpandVars(arg, env); r.Some? && key + "=" <= r.value
  {
    KeysAreKeyLike(key);
    var field := FieldNamed(key).value;
    assert field !in {Debug, Shortcut};
    assert EffectOf(arg, true, env) == ExpandedEffect(arg, env);
    var parts := SplitOnce(ExpandVars(arg, env).value).value;
    NamedKeys(parts.key, key);
  }

  /** What a disguised argument does. */
  lemma DisguisedEffect(arg: Bytes, key: Bytes, env: Lookups)
    requires Valid(arg) && key in TRUST_KEYS && MayBecome(arg, key)
    requires var r := ExpandVars(arg, env); r.Some? && key + "=" <= r.value
    ensures FieldNamed(key).Some?
    ensures EffectOf(arg, true, env) == Sets(FieldNamed(key).value, Text(ExpandVars(arg, env).value[|key| + 1..]))
  {
    var r := ExpandVars(arg, env).value;
    var v := r[|key| + 1..];
    KeysAreKeyLike(key);
    assert EffectOf(arg, true, env) == ExpandedEffect(arg, env) by {
      DisguiseAllowed(arg, key);
      AllowedEffect(arg, true, env);
    }
    assert r == key + "=" + v;
    KeyedEffect(arg, key, v, env);
  }

  lemma KeyedEffect(arg: Bytes, key: Bytes, v: Bytes, env: Lookups)
    requires ExpandVars(arg, env) == Some(key + "=" + v) && KeyLike(key)
    requires FieldNamed(key).Some? && FieldNamed(key).value != Timeout
    ensures ExpandedEffect(arg, env) == Sets(FieldNamed(key).value, Text(v))
  {
    NoEqualSign(key);
    SplitAt(key, v);
  }

  lemma NoEqualSign(key: Bytes)
    requires KeyLike(key)
    ensures '=' !in key
  {
  }

  /** An argument not written `key=`, for a key whose arguments are checked, can set its field
      unchecked, for some accepted user of a real host, exactly when it may become `key=`. */
  lemma SetsFieldIffMayBecome(arg: Bytes, key: Bytes)
    requires key in TRUST_KEYS && Valid(arg) && PercentIsolated(arg) && !Written(arg, key)
    ensures MayBecome(arg, key) <==>
            exists system, user :: RealUser(system, user) && SetsField(arg, key, LookupsFor(system, user))
  {
    KeysAreKeyLike(key);
    if MayBecome(arg, key) {
      var system, user := BecomesIf(arg, key);
      DisguisedEffect(arg, key, LookupsFor(system, user));
    }
    if system, user :| RealUser(system, user) && SetsField(arg, key, LookupsFor(system, user)) {
      ExpandsToKey(arg, key, LookupsFor(system, user));
      BecomesOnlyIf(arg, key, system, user);
    }
  }

  // ----- the file of a strict configuration -----

  function WithDisguise(t: Bytes, arg: Bytes): seq<Bytes> {
    ["strict", "file=" + t, arg]
  }

  lemma ThreeArguments(t: Bytes, arg: Bytes, effector: Bytes -> Effect, x: Bytes)
    requires effector("strict") == Nothing && effector("file=" + t) == Sets(File, Text(x))
    requires FileTemplate(arg).None? && Occurs(t, 'u')
    ensures var effects := Effects(WithDisguise(t, arg), effector);
            && (Fails in effects <==> effector(arg) == Fails) && PerUser(WithDisguise(t, arg))
            && Applied(effects, true) == Apply(Initial(true).(file := x), effector(arg))
  {
    var effects := Effects(WithDisguise(t, arg), effector);
    var two := ["strict", "file=" + t];
    assert effects == [Nothing, Sets(File, Text(x)), effector(arg)];
    assert FileTemplate("file=" + t) == Some(t);
    TwoArguments("strict", "file=" + t, effector);
    assert WithDisguise(t, arg)[..2] == two;
    assert effects[..2] == Effects(two, effector);
  }

  /** Strict parsing of a per-user `file=` followed by an argument not written so. */
  lemma ParseOfThree(t: Bytes, arg: Bytes, env: Lookups)
    requires Valid(t) && PerUserTemplate(t) && FileTemplate(arg).None?
    ensures ParseSpec(WithDisguise(t, arg), env) ==
            if ExpandVars(t, env).None? || EffectOf(arg, true, env) == Fails then None
            else Finish(Apply(Initial(true).(file := ExpandVars(t, env).value), EffectOf(arg, true, env)), true)
  {
    var args, effector := WithDisguise(t, arg), Effector(true, env);
    assert args[0] == "strict";
    StrictIsNothing(env);
    PerUserFileEffect(t, env);
    AppliedIsParsed(args, true, env);
    if ExpandVars(t, env).None? {
      assert effector(args[1]) == Fails;
      EffectMember(args, effector, Fails);
    } else {
      ThreeArguments(t, arg, effector, ExpandVars(t, env).value);
    }
  }

  /** Strict parsing succeeds, and the argument decides the file. */
  ghost predicate DecidesFile(t: Bytes, arg: Bytes, env: Lookups) {
    var r := ParseSpec(WithDisguise(t, arg), env);
    r.Some? && EffectOf(arg, true, env) == Sets(File, Text(r.value.file))
  }

  lemma DisguisedParse(t: Bytes, arg: Bytes, v: Bytes, env: Lookups)
    requires Valid(t) && PerUserTemplate(t) && ExpandVars(t, env).Some? && FileTemplate(arg).None?
    requires EffectOf(arg, true, env) == Sets(File, Text(v))
    ensures ParseSpec(WithDisguise(t, arg), env) ==
            Some(Args(false, v, None, None, None, None, true, false, Some(30)))
  {
    ParseOfThree(t, arg, env);
  }

  lemma FileIsKey()
    ensures "file" in TRUST_KEYS && FieldNamed("file") == Some(File) && "file" + "=" == "file="
  {
    assert TRUST_KEYS[0] == "file";
  }

  lemma DisguiseDecides(t: Bytes, arg: Bytes) returns (system: System, user: Bytes, v: Bytes)
    requires Valid(t) && PerUserTemplate(t) && Valid(arg) && PercentIsolated(arg) && MayBecome(arg, "file")
    ensures RealUser(system, user) && Talks(LookupsFor(system, user), SLOTS)
    ensures EffectOf(arg, true, LookupsFor(system, user)) == Sets(File, Text(v))
    ensures DecidesFile(t, arg, LookupsFor(system, user))
  {
    FileIsKey();
    KeysAreKeyLike("file");
    system, user := BecomesIf(arg, "file");
    var env := LookupsFor(system, user);
    v := ExpandVars(arg, env).value[5..];
    DisguisedEffect(arg, "file", env);
    DisguiseAllowed(arg, "file");
    PassesTotal(t, SLOTS, env);
    DisguisedParse(t, arg, v, env);
  }

  /** After a per-user `file=`, an argument not written so can decide the file, for some accepted user
      of a real host, exactly when it may become `file=`. */
  lemma DisguisedIffMayBecomeFile(t: Bytes, arg: Bytes)
    requires Valid(t) && PerUserTemplate(t)
    requires Valid(arg) && PercentIsolated(arg) && FileTemplate(arg).None?
    ensures MayBecome(arg, "file") <==>
            exists system, user :: RealUser(system, user) && DecidesFile(t, arg, LookupsFor(system, user))
  {
    if MayBecome(arg, "file") {
      var system, user, v := DisguiseDecides(t, arg);
    }
    if system, user :| RealUser(system, user) && DecidesFile(t, arg, LookupsFor(system, user)) {
      SetterMayBecome(arg, system, user);
    }
  }

  lemma SetterMayBecome(arg: Bytes, system: System, user: Bytes)
    requires PercentIsolated(arg) && FileTemplate(arg).None? && RealUser(system, user)
    requires SameField(EffectOf(arg, true, LookupsFor(system, user)), Sets(File, Flag))
    ensures MayBecome(arg, "file")
  {
    FileIsKey();
    KeysAreKeyLike("file");
    ExpandsToKey(arg, "file", LookupsFor(system, user));
    BecomesOnlyIf(arg, "file", system, user);
  }

  /** Strict parsing succeeds with a file that is not the one of the template. */
  ghost predicate OtherFile(t: Bytes, arg: Bytes, env: Lookups) {
    var r := ParseSpec(WithDisguise(t, arg), env);
    r.Some? && ExpandVars(t, env) != Some(r.value.file)
  }

  ghost predicate OtherFileFor(t: Bytes, arg: Bytes, system: System, user: Bytes) {
    Valid(t) && PerUserTemplate(t) && RealUser(system, user) && OtherFile(t, arg, LookupsFor(system, user))
  }

  lemma OtherFileMayBecome(t: Bytes, arg: Bytes, system: System, user: Bytes)
    requires PercentIsolated(arg) && FileTemplate(arg).None? && OtherFileFor(t, arg, system, user)
    ensures MayBecome(arg, "file")
  {
    var env := LookupsFor(system, user);
    ParseOfThree(t, arg, env);
    EffectsWellShaped(arg, true, env);
    assert SameField(EffectOf(arg, true, env), Sets(File, Flag));
    SetterMayBecome(arg, system, user);
  }

  /** It can give a user another file than the template exactly then, too. */
  lemma OtherFileIffMayBecomeFile(arg: Bytes)
    requires Valid(arg) && PercentIsolated(arg) && FileTemplate(arg).None?
    ensures MayBecome(arg, "file") <==> exists t, system, user :: OtherFileFor(t, arg, system, user)
  {
    if MayBecome(arg, "file") {
      var t, system, user := OtherFileExists(arg);
    }
    if t, system, user :| OtherFileFor(t, arg, system, user) {
      OtherFileMayBecome(t, arg, system, user);
    }
  }

  lemma OtherFileExists(arg: Bytes) returns (t: Bytes, system: System, user: Bytes)
    requires Valid(arg) && PercentIsolated(arg) && MayBecome(arg, "file")
    ensures OtherFileFor(t, arg, system, user)
  {
    var v;
    MarkedTemplate('x');
    system, user, v := DisguiseDecides(['x'] + "%u", arg);
    DisguiseAllowedFile(arg);
    var mark := if v == ['x'] + user then 'y' else 'x';
    assert v != [mark] + user by { assert (['x'] + user)[0] != (['y'] + user)[0]; }
    t := [mark] + "%u";
    OtherMark(arg, mark, v, system, user);
  }

  lemma DisguiseAllowedFile(arg: Bytes)
    requires MayBecome(arg, "file")
    ensures FileTemplate(arg).None?
  {
    FileIsKey();
    DisguiseAllowed(arg, "file");
  }

  lemma MarkedTemplate(mark: char)
    requires mark in "xy"
    ensures Valid([mark] + "%u") && PerUserTemplate([mark] + "%u")
  {
    var t := [mark] + "%u";
    AsciiIsValid(t);
    OnlySlot([mark], "", 'u');
    assert [mark] + (['%', 'u'] + "") == t;
    assert t[1] == '%' && t[2] == 'u';
    IsolatedPercentIsSafe(t, SHARED_SLOTS);
  }

  lemma OtherMark(arg: Bytes, mark: char, v: Bytes, system: System, user: Bytes)
    requires mark in "xy" && FileTemplate(arg).None? && RealUser(system, user)
    requires EffectOf(arg, true, LookupsFor(system, user)) == Sets(File, Text(v))
    ensures v != [mark] + user ==> OtherFileFor([mark] + "%u", arg, system, user)
  {
    MarkedTemplate(mark);
    MarkExpands(mark, system, user);
    DisguisedParse([mark] + "%u", arg, v, LookupsFor(system, user));
  }

  lemma MarkExpands(mark: char, system: System, user: Bytes)
    requires mark in "xy" && RealUser(system, user)
    ensures ExpandVars([mark] + "%u", LookupsFor(system, user)) == Some([mark] + user)
  {
    RealIsInert(system, user);
    assert SLOTS[3] == Var('u');
    VariableExpands([mark], "", 'u', LookupsFor(system, user));
    assert [mark] + (['%', 'u'] + "") == [mark] + "%u" && user + "" == user;
  }

  lemma NoOtherFile(t: Bytes, arg: Bytes, x: Bytes, env: Lookups)
    requires Valid(t) && PerUserTemplate(t) && FileTemplate(arg).None? && ExpandVars(t, env) == Some(x)
    requires SameField(EffectOf(arg, true, env), Sets(File, Flag)) ==> EffectOf(arg, true, env) == Sets(File, Text(x))
    ensures !OtherFile(t, arg, env)
  {
    ParseOfThree(t, arg, env);
    EffectsWellShaped(arg, true, env);
  }

  /** For one template it need not: only the user "le" completes "fi%u=/le", and has that file anyway. */
  lemma CoincidentFile(arg: Bytes, t: Bytes, system: System, user: Bytes)
    requires RealUser(system, user) && t == "/%u" && arg == "fi" + ("%u" + "=/le")
    ensures !OtherFile(t, arg, LookupsFor(system, user))
  {
    var env := LookupsFor(system, user);
    SlashTemplate(t, system, user);
    RealIsInert(system, user);
    RealValues(system, user);
    assert FileTemplate(arg).None? by { assert arg[2] == '%'; }
    OnlyLe(arg, user, env);
    NoOtherFile(t, arg, "/" + user, env);
  }

  lemma SlashTemplate(t: Bytes, system: System, user: Bytes)
    requires t == "/%u" && RealUser(system, user)
    ensures Valid(t) && PerUserTemplate(t) && ExpandVars(t, LookupsFor(system, user)) == Some("/" + user)
  {
    RealIsInert(system, user);
    AsciiIsValid(t);
    OnlySlot("/", "", 'u');
    assert "/" + (['%', 'u'] + "") == t && user + "" == user && SLOTS[3] == Var('u');
    assert t[1] == '%' && t[2] == 'u';
    IsolatedPercentIsSafe(t, SHARED_SLOTS);
    VariableExpands("/", "", 'u', LookupsFor(system, user));
  }

  lemma OnlyLe(arg: Bytes, user: Bytes, env: Lookups)
    requires arg == "fi" + ("%u" + "=/le") && PlainName(user)
    requires env.value('u') == Some(user) && InertFor(env, SLOTS)
    ensures SameField(EffectOf(arg, true, env), Sets(File, Flag)) ==>
              EffectOf(arg, true, env) == Sets(File, Text("/" + user))
  {
    LeExpands(arg, user, env);
    if SameField(EffectOf(arg, true, env), Sets(File, Flag)) {
      assert "file=" <= "fi" + (user + "=/le") by {
        OnlySettingsSetFile(arg, true, env);
        ExpandsToFile(arg, env);
      }
      LeIsOnly(user);
      SetterIsExpanded(arg, env);
      assert ExpandedEffect(arg, env) == Sets(File, Text("/" + user)) by { FileKeyed(arg, "/" + user, env); }
    }
  }

  lemma FileKeyed(arg: Bytes, v: Bytes, env: Lookups)
    requires ExpandVars(arg, env) == Some("file=" + v)
    ensures ExpandedEffect(arg, env) == Sets(File, Text(v))
  {
    FileIsKey();
    KeysAreKeyLike("file");
    KeyedEffect(arg, "file", v, env);
  }

  lemma SetterIsExpanded(arg: Bytes, env: Lookups)
    requires SameField(EffectOf(arg, true, env), Sets(File, Flag))
    ensures EffectOf(arg, true, env) == ExpandedEffect(arg, env)
  {
  }

  lemma LeExpands(arg: Bytes, user: Bytes, env: Lookups)
    requires arg == "fi" + ("%u" + "=/le") && env.value('u') == Some(user) && InertFor(env, SLOTS)
    ensures ExpandVars(arg, env) == Some("fi" + (user + "=/le"))
  {
    SharedIsFewer();
    ExpandsAroundUser("fi", "=/le", user, env);
  }

  lemma LeIsOnly(user: Bytes)
    requires "file=" <= "fi" + (user + "=/le") && PlainName(user)
    ensures user == "le" && "fi" + (user + "=/le") == "file=" + ("/" + user)
  {
    var r, after := "fi" + (user + "=/le"), "=/le";
    assert r[2 + |user|] == after[0] && user[0] == r[2] && (|user| > 1 ==> user[1] == r[3]);
    assert "file" + "=" == "file=" && r[2] == 'l' && r[3] == 'e' && r[4] == '=';
    UserSupplies("fi", user, after, "file");
  }

  lemma SharedIsFewer()
    ensures forall slot :: slot in SHARED_SLOTS ==> slot in SLOTS
  {
    var s := SLOTS;
    assert s[2..] == SHARED_SLOTS;
  }

  // ----- two examples -----

  lemma PartOfFile(a: Bytes, user: Bytes)
    requires a + user == "file" && user != ""
    ensures |a| < 4 && Inert(a) && '~' !in a && PlainName(user) && a <= "file"
    ensures Valid(a)
  {
    assert forall k | 0 <= k < |a| :: a[k] == (a + user)[k];
    assert forall k | 0 <= k < |user| :: user[k] == (a + user)[|a| + k];
    AsciiIsValid(a);
  }

  lemma FirstActiveAfter(a: Bytes, s: Bytes)
    requires Inert(a) && '~' !in a && ActiveAt(s, 0, SLOTS)
    ensures FirstActive(a + s, SLOTS) == |a|
  {
    var w, j := a + s, FirstActive(a + s, SLOTS);
    assert w[|a|..] == s && w[|a|] == s[0];
    assert ActiveAt(w, |a|, SLOTS);
    assert forall k | 0 <= k < |a| :: w[k] == a[k] && a[k] in a;
  }

  lemma {:induction false} EqualSignFirst(v: Bytes)
    ensures Continues("=" + v, "=")
  {
    var s := "=" + v;
    assert !ActiveAt(s, 0, LATER);
    assert s[0] == '=';
  }

  lemma DisguisedAfterUser(a: Bytes, user: Bytes, key: Bytes, v: Bytes)
    requires key in TRUST_KEYS && a + user == key && user != "" && Inert(a) && '~' !in a && Valid(a) && Valid(v)
    ensures var arg := a + ("%u" + ("=" + v)); MayBecome(arg, key) && Valid(arg)
  {
    var s := "%u" + ("=" + v);
    var arg := a + s;
    AsciiIsValid("%u=");
    assert "%u=" + v == s;
    ValidConcat("%u=", v);
    ValidConcat(a, s);
    assert SLOTS[3] == Var('u') && s[0] == '%' && s[1] == 'u';
    FirstActiveAfter(a, s);
    assert arg[..|a|] == a && arg[|a|] == '%' && arg[|a| + 1] == 'u' && arg[|a| + 2..] == "=" + v;
    EqualSignFirst(v);
    assert (key + "=")[|key|..] == "=" && key[..|a|] == a;
  }

  /** A user whose name completes the key sets the file by an argument that strict parsing does
      not check as one. */
  lemma DisguisedFile(t: Bytes, a: Bytes, user: Bytes, v: Bytes, env: Lookups)
    requires env.value('u') == Some(user) && InertFor(env, SHARED_SLOTS)
    requires a + user == "file" && user != "" && Inert(v) && '~' !in v && Valid(v)
    requires Valid(t) && PerUserTemplate(t) && ExpandVars(t, env).Some?
    ensures PlainName(user)
    ensures var r := ParseSpec(WithDisguise(t, a + ("%u" + ("=" + v))), env);
            r.Some? && r.value.strict && r.value.file == v
  {
    var arg := a + ("%u" + ("=" + v));
    PartOfFile(a, user);
    FileIsKey();
    DisguisedAfterUser(a, user, "file", v);
    CompletedKey(a, user, v, env);
    DisguisedEffect(arg, "file", env);
    DisguiseAllowedFile(arg);
    assert ("file=" + v)[5..] == v;
    DisguisedParse(t, arg, v, env);
  }

  lemma CompletedKey(a: Bytes, user: Bytes, v: Bytes, env: Lookups)
    requires env.value('u') == Some(user) && InertFor(env, SHARED_SLOTS)
    requires a + user == "file" && Inert(a) && '~' !in a && Inert(v) && '~' !in v
    ensures ExpandVars(a + ("%u" + ("=" + v)), env) == Some("file=" + v)
  {
    ExpandsAroundUser(a, "=" + v, user, env);
    assert a + (user + ("=" + v)) == (a + user) + "=" + v == "file=" + v;
  }

  /** The home directory passes before the user's name, which then stands in the key. */
  lemma HomeThenUser(a: Bytes, user: Bytes, p: Bytes, home: Bytes, env: Lookups)
    requires InertFor(env, SLOTS) && env.value('u') == Some(user) && env.home("") == Some(home)
    requires Inert(a) && '~' !in a && Inert(home) && '~' !in home && Inert(p) && '~' !in p
    requires p == "" || p[0] == '/'
    ensures ExpandVars(a + ("%u" + ("=" + ("~" + p))), env) == Some(a + (user + ("=" + (home + p))))
  {
    var before, rest := a + "%u=", SLOTS[1..];
    HomePass(before, "", p, env);
    assert before + ("~" + "" + p) == a + ("%u" + ("=" + ("~" + p)));
    var b := "=" + (home + p);
    var s := a + (['%', 'u'] + b);
    assert before + (home + p) == s;
    OnlySlot(a, b, 'u');
    LettersWellOrdered();
    IsolatedIsScan(s, rest, env);
    ScanAround(a, b, 'u', rest, env);
  }

  lemma LettersWellOrdered()
    ensures WellOrdered(SLOTS[1..]) && Var('u') in SLOTS[1..] && Home !in SLOTS[1..]
    ensures forall slot :: slot in SLOTS[1..] ==> slot in SLOTS
  {
    var s := SLOTS;
    assert s[1..][2] == s[3] == Var('u');
  }

  /** A user whose name completes a checked key has a home directory put in front of the path. */
  lemma HomeDirectoryEscapes(a: Bytes, user: Bytes, key: Bytes, p: Bytes, home: Bytes, env: Lookups)
    requires key in TRUST_KEYS && a + user == key && user != "" && Inert(a) && '~' !in a && Valid(a)
    requires InertFor(env, SLOTS) && env.value('u') == Some(user) && env.home("") == Some(home)
    requires Inert(home) && '~' !in home && Inert(p) && '~' !in p && Valid(p) && (p == "" || p[0] == '/')
    ensures FieldNamed(key).Some?
    ensures EffectOf(a + ("%u" + ("=" + ("~" + p))), true, env) == Sets(FieldNamed(key).value, Text(home + p))
  {
    var v := "~" + p;
    AsciiIsValid("~");
    ValidConcat("~", p);
    DisguisedAfterUser(a, user, key, v);
    HomeThenUser(a, user, p, home, env);
    ExpandedKey(a, user, key, home + p);
    DisguisedEffect(a + ("%u" + ("=" + v)), key, env);
  }

  lemma ExpandedKey(a: Bytes, user: Bytes, key: Bytes, v: Bytes)
    requires a + user == key
    ensures var r := a + (user + ("=" + v)); key + "=" <= r && r[|key| + 1..] == v
  {
    assert a + (user + ("=" + v)) == key + "=" + v;
  }

  /** So the user "file" gets a CA file below a home directory, which strict mode refuses as written. */
  lemma CaFileBelowHome(p: Bytes, home: Bytes, env: Lookups)
    requires InertFor(env, SLOTS) && env.value('u') == Some("file") && env.home("") == Some(home)
    requires Inert(home) && '~' !in home && Inert(p) && '~' !in p && Valid(p) && (p == "" || p[0] == '/')
    ensures EffectOf("ca_keys_" + ("%u" + ("=" + ("~" + p))), true, env) == Sets(CaKeysFile, Text(home + p))
  {
    CaKey();
    HomeDirectoryEscapes("ca_keys_", "file", "ca_keys_file", p, home, env);
  }

  lemma CaKey()
    ensures var a := "ca_keys_"; Inert(a) && '~' !in a && Valid(a) && a + "file" == "ca_keys_file"
    ensures "ca_keys_file" in TRUST_KEYS && FieldNamed("ca_keys_file") == Some(CaKeysFile)
  {
    assert TRUST_KEYS[1] == "ca_keys_file";
    AsciiIsValid("ca_keys_");
  }

  lemma CaKeyRefused(v: Bytes)
    requires '~' in v
    ensures !TrustSourceAllowed("ca_keys_file=" + v)
  {
    var key := "ca_keys_file";
    assert key + "=" == "ca_keys_file=" && '=' !in key;
    SplitAt(key, v);
  }
}
