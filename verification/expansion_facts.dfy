/** Consequences for callers of `expand_vars`: byte safety, splitting at '=' and what a single
    variable stands for. */
module ExpansionFacts {
  import opened Outcomes
  import opened Utf8
  import opened Expansions
  import opened Simultaneous

  // ----- slices of a UTF-8 template -----

  predicate AsciiSlot(slot: Slot) {
    slot.Home? || slot.letter as int < 0x80
  }

  lemma AfterAscii(s: Bytes, i: nat)
    requires Valid(s) && i < |s| && s[i] as int < 0x80
    ensures Boundary(s, i + 1)
  {
    BoundaryCuts(s, i);
    var t := s[i..];
    assert t[0] == s[i] && t[1..] == s[i + 1..];
    if i + 1 < |s| {
      NextSurvives(Fresh, t[1..]);
    }
  }

  lemma BetweenBoundaries(s: Bytes, i: nat, j: nat)
    requires Valid(s) && i <= j <= |s| && Boundary(s, i) && Boundary(s, j)
    ensures Valid(s[i..j])
  {
    BoundaryCuts(s, i);
    assert s[i..][..j - i] == s[i..j];
    assert Boundary(s[i..], j - i);
    BoundaryCuts(s[i..], j - i);
  }

  /** A pass cuts at `i`, at `i + n` and, for a user name, at `i + 1`. */
  predicate CutsWell(s: Bytes, i: nat, n: nat) {
    0 < n <= |s| - i && Boundary(s, i) && Boundary(s, i + 1) && Boundary(s, i + n)
  }

  /** Every index at which a pass slices lies within the template and on a character boundary. */
  lemma SlicesOnBoundaries(s: Bytes, slot: Slot)
    requires Valid(s) && AsciiSlot(slot) && First(s, slot) < |s|
    ensures CutsWell(s, First(s, slot), Span(s[First(s, slot)..], slot))
  {
    var i := First(s, slot);
    SlotCharacters(s, i, slot);
    AfterAscii(s, i);
    if slot.Var? {
      AfterAscii(s, i + 1);
    }
  }

  lemma SlotCharacters(s: Bytes, i: nat, slot: Slot)
    requires i < |s| && StartsWith(s[i..], slot)
    ensures var n := Span(s[i..], slot);
            && s[i] as int < 0x80 && i + n <= |s|
            && (slot.Var? ==> n == 2 && s[i + 1] == slot.letter)
            && (slot.Home? && i + n < |s| ==> s[i + n] == '/')
  {
    var t := s[i..];
    assert s[i] == t[0];
    if slot.Var? {
      assert s[i + 1] == t[1];
    } else {
      assert t[1..] == s[i + 1..];
      assert |UserName(t[1..])| < |t[1..]| ==> t[1..][|UserName(t[1..])|] == '/';
    }
  }

  ghost predicate ValidLookups(env: Lookups) {
    && (forall name :: Valid(name) && env.home(name).Some? ==> Valid(env.home(name).value))
    && (forall letter :: env.value(letter).Some? ==> Valid(env.value(letter).value))
  }

  lemma PassKeepsUtf8(s: Bytes, slot: Slot, env: Lookups)
    requires Valid(s) && AsciiSlot(slot) && ValidLookups(env)
    ensures var p := Pass(s, slot, env); p.Some? ==> Valid(p.value)
  {
    var i := First(s, slot);
    assert Pass(s, slot, env) == Sliced(s, i, slot, env) by { PassIsSliced(s, slot, env); }
    if i < |s| && Sliced(s, i, slot, env).Some? {
      SlicesOnBoundaries(s, slot);
      ValueIsUtf8(s, i, slot, env);
      Reassembled(s, i, i + Span(s[i..], slot), ValueAt(s[i..], slot, env).value);
    }
  }

  lemma ValueIsUtf8(s: Bytes, i: nat, slot: Slot, env: Lookups)
    requires Valid(s) && i < |s| && StartsWith(s[i..], slot) && CutsWell(s, i, Span(s[i..], slot))
    requires ValidLookups(env)
    ensures var v := ValueAt(s[i..], slot, env); v.Some? ==> Valid(v.value)
  {
    if slot.Home? {
      BetweenBoundaries(s, i + 1, i + Span(s[i..], slot));
      NameBetween(s, i);
    }
  }

  lemma NameBetween(s: Bytes, i: nat)
    requires i < |s| && StartsWith(s[i..], Home)
    ensures UserName(s[i..][1..]) == s[i + 1..i + Span(s[i..], Home)]
  {
    var t := s[i..][1..];
    assert t == s[i + 1..];
    assert UserName(t) == t[..|UserName(t)|] == s[i + 1..i + 1 + |UserName(t)|];
  }

  lemma Reassembled(s: Bytes, i: nat, j: nat, v: Bytes)
    requires Valid(s) && i <= j <= |s| && Boundary(s, i) && Boundary(s, j) && Valid(v)
    ensures Valid(s[..i] + v + s[j..])
  {
    BoundaryCuts(s, i);
    BoundaryCuts(s, j);
    ValidConcat(s[..i], v);
    ValidConcat(s[..i] + v, s[j..]);
  }

  /** Expansion of a UTF-8 template with UTF-8 values is UTF-8. */
  lemma {:induction false} ExpansionKeepsUtf8(s: Bytes, slots: seq<Slot>, env: Lookups)
    requires Valid(s) && ValidLookups(env) && forall slot :: slot in slots ==> AsciiSlot(slot)
    ensures var p := Passes(s, slots, env); p.Some? ==> Valid(p.value)
    decreases |slots|
  {
    if slots != [] {
      PassKeepsUtf8(s, slots[0], env);
      var p := Pass(s, slots[0], env);
      if p.Some? {
        ExpansionKeepsUtf8(p.value, slots[1..], env);
      }
    }
  }

  // ----- expansion and splitting at the first '=' -----

  datatype Setting = Setting(key: Bytes, value: Bytes)

  /** `splitn(2, '=')`, when it gives two parts. */
  function SplitOnce(s: Bytes): (r: Option<Setting>)
    ensures r.Some? <==> '=' in s
    ensures r.Some? ==> s == r.value.key + "=" + r.value.value && '=' !in r.value.key
  {
    if s == "" then None
    else if s[0] == '=' then Some(Setting("", s[1..]))
    else
      var r := SplitOnce(s[1..]);
      if r.None? then None else Some(Setting([s[0]] + r.value.key, r.value.value))
  }

  lemma {:induction false} SplitAt(k: Bytes, v: Bytes)
    requires '=' !in k
    ensures SplitOnce(k + "=" + v) == Some(Setting(k, v))
  {
    var s := k + "=" + v;
    if k == "" {
      assert s[1..] == v;
    } else {
      assert s[1..] == k[1..] + "=" + v && s[0] == k[0];
      assert k == [k[0]] + k[1..];
      SplitAt(k[1..], v);
    }
  }

  predicate SlotFree(k: Bytes, slots: seq<Slot>) {
    forall i :: 0 <= i < |k| ==> !Active(k[i..], slots)
  }

  lemma {:induction false} PassSkipsKey(w: Bytes, v: Bytes, slot: Slot, env: Lookups)
    requires w != "" && w[|w| - 1] == '=' && SlotFree(w, [slot])
    ensures Pass(w + v, slot, env) == Join(Some(w), Pass(v, slot, env))
  {
    var s := w + v;
    assert w[0..] == w;
    if |w| == 1 {
      assert s[..1] == w && s[1..] == v;
    } else {
      assert s[1..] == w[1..] + v && s[..1] == w[..1];
      forall i | 0 <= i < |w| - 1 ensures !Active(w[1..][i..], [slot]) {
        assert w[1..][i..] == w[i + 1..];
      }
      PassSkipsKey(w[1..], v, slot, env);
      var q := Pass(v, slot, env);
      assert q.Some? ==> w[..1] + (w[1..] + q.value) == w + q.value;
    }
  }

  lemma {:induction false} PassesSkipKey(w: Bytes, v: Bytes, slots: seq<Slot>, env: Lookups)
    requires w != "" && w[|w| - 1] == '=' && SlotFree(w, slots)
    ensures Passes(w + v, slots, env) == Join(Some(w), Passes(v, slots, env))
    decreases |slots|
  {
    if slots != [] {
      PassSkipsKey(w, v, slots[0], env);
      var q := Pass(v, slots[0], env);
      if q.Some? {
        PassesSkipKey(w, q.value, slots[1..], env);
      }
    }
  }

  lemma SlotFreeKey(k: Bytes, slots: seq<Slot>)
    requires WellOrdered(slots) && Var('=') !in slots
    ensures SlotFree(k, slots) <==> SlotFree(k + "=", slots)
  {
    var w := k + "=";
    forall i | 0 <= i < |k| ensures Active(k[i..], slots) <==> Active(w[i..], slots) {
      assert w[i..] == k[i..] + "=";
    }
    assert w[|k|..] == "=";
    assert SlotFree(w, slots) ==> forall i :: 0 <= i < |k| ==> !Active(w[i..], slots);
  }

  /** Expanding "key=value" expands the value and keeps the key, whatever the environment says. */
  lemma ExpansionKeepsKey(k: Bytes, v: Bytes, env: Lookups)
    requires '=' !in k && SlotFree(k, SLOTS)
    ensures var r := ExpandVars(k + "=" + v, env);
            && (r.None? <==> ExpandVars(v, env).None?)
            && (r.Some? ==> SplitOnce(r.value) == Some(Setting(k, ExpandVars(v, env).value)))
  {
    SlotsWellOrdered();
    SlotFreeKey(k, SLOTS);
    PassesSkipKey(k + "=", v, SLOTS, env);
    var e := ExpandVars(v, env);
    if e.Some? {
      SplitAt(k, e.value);
    }
  }

  predicate ActiveAt(s: Bytes, k: nat, slots: seq<Slot>) {
    k < |s| && if s[k] == '~' then Home in slots
               else s[k] == '%' && k + 1 < |s| && Var(s[k + 1]) in slots
  }

  lemma ActiveIsActiveAt(s: Bytes, k: nat, slots: seq<Slot>)
    requires k <= |s|
    ensures Active(s[k..], slots) <==> ActiveAt(s, k, slots)
  {
  }

  ghost predicate NoneBefore(s: Bytes, j: nat, slots: seq<Slot>) {
    forall k :: 0 <= k < j ==> !ActiveAt(s, k, slots)
  }

  /** A character that neither is a slot nor completes one. */
  predicate Dull(c: char) {
    c !in "%~hHufU"
  }

  predicate DullText(v: Option<Bytes>) {
    v.Some? && v.value != "" && Dull(v.value[0])
  }

  ghost predicate DullEnvironment(env: Lookups) {
    (forall name :: DullText(env.home(name))) && forall x :: x in "hHufU" ==> DullText(env.value(x))
  }

  ghost predicate UsualLetters(slots: seq<Slot>) {
    forall x :: Var(x) in slots ==> x in "hHufU"
  }

  /** A slot at `j`, the first one, gives way to a value, and the text before it stays. */
  lemma {:induction false} FirstSlotChanges(s: Bytes, j: nat, slots: seq<Slot>, env: Lookups)
    requires WellOrdered(slots) && UsualLetters(slots) && j < |s| && NoneBefore(s, j, slots)
    requires DullEnvironment(env) && (ActiveAt(s, j, slots) || Dull(s[j]))
    ensures var r := Passes(s, slots, env); r.Some? && |r.value| > j && Dull(r.value[j])
    decreases |slots|
  {
    if slots != [] {
      var i := First(s, slots[0]);
      assert slots[0] in slots && forall slot :: slot in slots[1..] ==> slot in slots;
      DullPass(s, slots[0], env);
      if i == |s| {
        NotAt(s, j, slots[0]);
        FewerActive(s, j, slots);
        FirstSlotChanges(s, j, slots[1..], env);
      } else {
        ActiveIsActiveAt(s, i, slots);
        var s' := Pass(s, slots[0], env).value;
        ReplacedStep(s, s', i, j, slots);
        FirstSlotChanges(s', j, slots[1..], env);
      }
    }
  }

  /** A pass puts a dull character where its slot first occurs. */
  lemma DullPass(s: Bytes, slot: Slot, env: Lookups)
    requires DullEnvironment(env) && (slot.Var? ==> slot.letter in "hHufU")
    ensures var p, i := Pass(s, slot, env), First(s, slot);
            && p.Some? && (i == |s| ==> p.value == s)
            && (i < |s| ==> i < |p.value| && p.value[..i] == s[..i] && Dull(p.value[i]))
  {
    var i := First(s, slot);
    assert Pass(s, slot, env) == Sliced(s, i, slot, env) by { PassIsSliced(s, slot, env); }
    if i < |s| {
      assert DullText(ValueAt(s[i..], slot, env));
      var v := ValueAt(s[i..], slot, env).value;
      var r := s[..i] + v + s[i + Span(s[i..], slot)..];
      assert r[..i] == s[..i] && r[i] == v[0];
    }
  }

  lemma NotAt(s: Bytes, j: nat, slot: Slot)
    requires j < First(s, slot)
    ensures !ActiveAt(s, j, [slot])
  {
    ActiveIsActiveAt(s, j, [slot]);
  }

  lemma FewerActive(s: Bytes, j: nat, slots: seq<Slot>)
    requires slots != [] && NoneBefore(s, j, slots) && !ActiveAt(s, j, [slots[0]])
    ensures NoneBefore(s, j, slots[1..])
    ensures ActiveAt(s, j, slots) ==> ActiveAt(s, j, slots[1..])
  {
    assert forall k | 0 <= k < j :: ActiveAt(s, k, slots[1..]) ==> ActiveAt(s, k, slots);
  }

  lemma ReplacedStep(s: Bytes, s': Bytes, i: nat, j: nat, slots: seq<Slot>)
    requires slots != [] && WellOrdered(slots) && UsualLetters(slots) && i == First(s, slots[0]) < |s|
    requires j < |s| && NoneBefore(s, j, slots) && (ActiveAt(s, j, slots) || Dull(s[j]))
    requires i < |s'| && Dull(s'[i]) && ActiveAt(s, i, slots) && s'[..i] == s[..i]
    ensures j <= i && NoneBefore(s', j, slots[1..])
    ensures ActiveAt(s', j, slots[1..]) || Dull(s'[j])
  {
    forall k | 0 <= k < i ensures s'[k] == s[k] {
      assert s'[k] == s'[..i][k];
    }
    StaysInactive(s, s', i, j, slots);
    if j < i && !Dull(s[j]) {
      NotAt(s, j, slots[0]);
      FewerActive(s, j, slots);
      StaysActive(s, s', i, j, slots);
    }
  }

  lemma StaysActive(s: Bytes, s': Bytes, i: nat, j: nat, slots: seq<Slot>)
    requires slots != [] && j < i < |s| && i < |s'| && UsualLetters(slots)
    requires ActiveAt(s, j, slots[1..]) && ActiveAt(s, i, slots) && forall k :: 0 <= k < i ==> s'[k] == s[k]
    ensures ActiveAt(s', j, slots[1..])
  {
    assert forall slot :: slot in slots[1..] ==> slot in slots;
  }

  lemma StaysInactive(s: Bytes, s': Bytes, i: nat, j: nat, slots: seq<Slot>)
    requires slots != [] && j <= i < |s| && i < |s'| && UsualLetters(slots)
    requires NoneBefore(s, j, slots) && Dull(s'[i]) && forall k :: 0 <= k < i ==> s'[k] == s[k]
    ensures NoneBefore(s', j, slots[1..])
  {
    assert forall slot :: slot in slots[1..] ==> slot in slots;
    forall k | 0 <= k < j ensures !ActiveAt(s', k, slots[1..]) {
      assert !ActiveAt(s, k, slots);
    }
  }

  /** A key that holds a slot is not the key of the expansion, where values begin with a dull character. */
  lemma KeyChanges(k: Bytes, v: Bytes, env: Lookups)
    requires '=' !in k && !SlotFree(k, SLOTS) && DullEnvironment(env)
    ensures var r := ExpandVars(k + "=" + v, env);
            r.Some? && (SplitOnce(r.value).Some? ==> SplitOnce(r.value).value.key != k)
  {
    SlotsWellOrdered();
    UsualSlots();
    var s := k + "=" + v;
    var j := LeastActive(k, SLOTS);
    assert forall i | 0 <= i < |k| :: s[i] == k[i];
    assert Var('=') !in SLOTS;
    forall i | 0 <= i < j ensures !ActiveAt(s, i, SLOTS) {
      assert !ActiveAt(k, i, SLOTS);
    }
    FirstSlotChanges(s, j, SLOTS, env);
    var r := ExpandVars(s, env);
    assert r.value[j] != k[j];
  }

  lemma UsualSlots()
    ensures UsualLetters(SLOTS)
  {
  }

  /** Splitting the expansion gives back the key for every environment exactly when the key
      itself holds no slot. */
  lemma KeyStableIffSlotFree(k: Bytes, v: Bytes)
    requires '=' !in k
    ensures SlotFree(k, SLOTS) <==>
            forall env :: var r := ExpandVars(k + "=" + v, env);
              r.Some? ==> SplitOnce(r.value).Some? && SplitOnce(r.value).value.key == k
  {
    if SlotFree(k, SLOTS) {
      forall env
        ensures var r := ExpandVars(k + "=" + v, env);
                r.Some? ==> SplitOnce(r.value).Some? && SplitOnce(r.value).value.key == k
      {
        ExpansionKeepsKey(k, v, env);
      }
    } else {
      KeyChanges(k, v, Always("x"));
    }
  }

  lemma {:induction false} LeastActive(k: Bytes, slots: seq<Slot>) returns (j: nat)
    requires !SlotFree(k, slots)
    ensures ActiveAt(k, j, slots) && NoneBefore(k, j, slots)
  {
    var i :| 0 <= i < |k| && Active(k[i..], slots);
    ActiveIsActiveAt(k, i, slots);
    j := 0;
    while !ActiveAt(k, j, slots)
      invariant j <= i && NoneBefore(k, j, slots)
      decreases i - j
    {
      j := j + 1;
    }
  }

  // ----- variables without a home directory -----

  predicate Occurs(s: Bytes, letter: char) {
    exists k :: 0 <= k < |s| - 1 && s[k] == '%' && s[k + 1] == letter
  }

  const SHARED_SLOTS: seq<Slot> := [Var('H'), Var('u'), Var('f'), Var('U')]

  lemma NoOccurrenceNoChange(t: Bytes, e: Lookups)
    requires '~' !in t && !Occurs(t, 'h')
    ensures ExpandVars(t, e) == Passes(t, SHARED_SLOTS, e)
  {
    forall k | 0 <= k < |t| ensures !StartsWith(t[k..], Home) && !StartsWith(t[k..], Var('h')) {
      assert t[k] in t;
      assert k + 1 < |t| ==> t[k..][1] == t[k + 1];
    }
    Untouched(t, Home, e);
    Untouched(t, Var('h'), e);
    assert SLOTS[1..][1..] == SHARED_SLOTS;
  }

  lemma ExpansionIsSharedScan(t: Bytes, e: Lookups)
    requires '~' !in t && !Occurs(t, 'h') && SafeScan(t, SHARED_SLOTS) && InertFor(e, SHARED_SLOTS)
    ensures WellOrdered(SHARED_SLOTS)
    ensures ExpandVars(t, e) == Scan(t, SHARED_SLOTS, e)
  {
    NoOccurrenceNoChange(t, e);
    SharedWellOrdered();
    PassesAreScan(t, SHARED_SLOTS, e);
  }

  lemma SharedWellOrdered()
    ensures WellOrdered(SHARED_SLOTS)
  {
  }

  lemma IsolatedIsScan(t: Bytes, slots: seq<Slot>, e: Lookups)
    requires PercentIsolated(t) && InertFor(e, slots) && WellOrdered(slots)
    ensures Passes(t, slots, e) == Scan(t, slots, e)
  {
    IsolatedPercentIsSafe(t, slots);
    PassesAreScan(t, slots, e);
  }

  // ----- what a single variable stands for -----

  lemma OnlySlot(a: Bytes, b: Bytes, x: char)
    requires Inert(a) && Inert(b) && '~' !in a && '~' !in b && x !in "%~"
    ensures var s := a + (['%', x] + b); PercentIsolated(s) && '~' !in s && (x != 'h' ==> !Occurs(s, 'h'))
  {
    var s := a + (['%', x] + b);
    forall k | 0 <= k < |s| && k != |a| ensures s[k] !in "%~" {
      assert k < |a| ==> s[k] == a[k] && a[k] in a;
      assert k > |a| + 1 ==> s[k] == b[k - |a| - 2] && b[k - |a| - 2] in b;
      assert k == |a| + 1 ==> s[k] == x;
    }
    assert s[|a|] == '%' && s[|a| + 1] == x;
  }

  lemma ScanAround(a: Bytes, b: Bytes, x: char, slots: seq<Slot>, env: Lookups)
    requires WellOrdered(slots) && Var(x) in slots
    requires env.value(x).Some? && Inert(a) && Inert(b) && '~' !in a && '~' !in b
    ensures Scan(a + (['%', x] + b), slots, env) == Some(a + (env.value(x).value + b))
  {
    var mid := ['%', x] + b;
    assert mid[2..] == b && HeadSlot(mid) == Some(Var(x));
    WithoutMembers(slots, Var(x));
    var rest := Without(slots, Var(x));
    ScanLiteral(a, mid, slots, env);
    assert b + "" == b;
    ScanLiteral(b, "", rest, env);
    assert Scan(b, rest, env) == Some(b);
  }

  lemma {:induction false} ScanLiteral(v: Bytes, s: Bytes, slots: seq<Slot>, env: Lookups)
    requires Inert(v) && '~' !in v
    ensures Scan(v + s, slots, env) == Join(Some(v), Scan(s, slots, env))
  {
    var q := Scan(s, slots, env);
    if v == "" {
      assert v + s == s;
      assert q.Some? ==> "" + q.value == q.value;
    } else {
      assert v[0] in v;
      assert (v + s)[1..] == v[1..] + s && (v + s)[..1] == v[..1] && v == v[..1] + v[1..];
      ScanLiteral(v[1..], s, slots, env);
      assert q.Some? ==> v[..1] + (v[1..] + q.value) == v + q.value;
    }
  }

  /** A template with a single variable expands to its value with the text around it unchanged. */
  lemma VariableExpands(a: Bytes, b: Bytes, x: char, env: Lookups)
    requires Var(x) in SLOTS && env.value(x).Some? && InertFor(env, SLOTS)
    requires Inert(a) && Inert(b) && '~' !in a && '~' !in b
    ensures ExpandVars(a + (['%', x] + b), env) == Some(a + (env.value(x).value + b))
  {
    SlotsWellOrdered();
    OnlySlot(a, b, x);
    IsolatedIsScan(a + (['%', x] + b), SLOTS, env);
    ScanAround(a, b, x, SLOTS, env);
  }

  /** `~name`, up to the next '/', expands to the home directory; a later '~' stays. */
  lemma HomeExpands(a: Bytes, name: Bytes, b: Bytes, env: Lookups)
    requires Inert(a) && Inert(name) && Inert(b) && '~' !in a && '/' !in name && (b == "" || b[0] == '/')
    requires env.home(name).Some? && Inert(env.home(name).value)
    ensures ExpandVars(a + ("~" + name + b), env) == Some(a + (env.home(name).value + b))
  {
    var s := a + ("~" + name + b);
    var r := a + (env.home(name).value + b);
    forall k | 0 <= k < |a| ensures !StartsWith(s[k..], Home) {
      assert s[k] == a[k] && a[k] in a;
    }
    HomePass(a, name, b, env);
    forall k | 0 <= k < |r| ensures r[k] != '%' {
      assert r[k] in a || r[k] in env.home(name).value || r[k] in b;
    }
    LettersUntouched(r, SLOTS[1..], env);
  }

  lemma HomeAtHead(name: Bytes, b: Bytes, env: Lookups)
    requires '/' !in name && (b == "" || b[0] == '/') && env.home(name).Some?
    ensures Pass("~" + name + b, Home, env) == Some(env.home(name).value + b)
  {
    var t := "~" + name + b;
    assert t[1..] == name + b && t[1..][..|name|] == name && t[1 + |name|..] == b;
    UserNameIs(t[1..], |name|);
    assert StartsWith(t, Home) && Span(t, Home) == 1 + |name|;
  }

  lemma {:induction false} HomePass(a: Bytes, name: Bytes, b: Bytes, env: Lookups)
    requires '~' !in a && '/' !in name && (b == "" || b[0] == '/') && env.home(name).Some?
    ensures Pass(a + ("~" + name + b), Home, env) == Some(a + (env.home(name).value + b))
  {
    var t, r := "~" + name + b, env.home(name).value + b;
    if a == "" {
      HomeAtHead(name, b, env);
      assert a + t == t && a + r == r;
    } else {
      HomePass(a[1..], name, b, env);
      PassSkipsCharacter(a, t, r, env);
    }
  }

  lemma PassSkipsCharacter(a: Bytes, t: Bytes, r: Bytes, env: Lookups)
    requires a != "" && '~' !in a && Pass(a[1..] + t, Home, env) == Some(a[1..] + r)
    ensures Pass(a + t, Home, env) == Some(a + r)
  {
    var s := a + t;
    assert a[0] in a && s[1..] == a[1..] + t && s[..1] == a[..1];
    assert a[..1] + (a[1..] + r) == a + r;
  }

  lemma {:induction false} LettersUntouched(s: Bytes, slots: seq<Slot>, env: Lookups)
    requires (forall k :: 0 <= k < |s| ==> s[k] != '%') && Home !in slots
    ensures Passes(s, slots, env) == Some(s)
    decreases |slots|
  {
    if slots != [] {
      forall k | 0 <= k < |s| ensures !StartsWith(s[k..], slots[0]) {
        assert s[k..][0] == s[k];
      }
      Untouched(s, slots[0], env);
      LettersUntouched(s, slots[1..], env);
    }
  }
}
