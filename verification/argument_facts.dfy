/** What a parsed argument list guarantees: order, the per-user file, distinct users. */
module ArgumentFacts {
  import opened Outcomes
  import opened Utf8
  import opened Expansions
  import opened Simultaneous
  import opened ExpansionFacts
  import opened Arguments
  import opened Numerals
  import opened Outlines
  import opened UserPaths

  // ----- the order of the arguments -----

  predicate SameField(e: Effect, f: Effect) {
    e.Sets? && f.Sets? && e.field == f.field
  }

  /** No two positions set the same field, and no two are written `file=`. */
  ghost predicate NoFieldTwice(args: seq<Bytes>, effector: Bytes -> Effect) {
    forall i, j :: 0 <= i < j < |args| ==>
      && !SameField(effector(args[i]), effector(args[j]))
      && !(FileTemplate(args[i]).Some? && FileTemplate(args[j]).Some?)
  }

  /** The same by membership, which a permutation keeps. */
  ghost predicate Consistent(args: seq<Bytes>, effector: Bytes -> Effect) {
    forall x, y :: x in args && y in args ==>
      && (SameField(effector(x), effector(y)) ==> x == y)
      && (FileTemplate(x).Some? && FileTemplate(y).Some? ==> x == y)
  }

  lemma {:induction false} LastIsAny(effects: seq<Effect>, f: Field, e: Effect)
    requires e in effects && e.Sets? && e.field == f
    requires forall d :: d in effects && SameField(d, e) ==> d == e
    ensures LastValue(effects, f) == Some(e.value)
    decreases |effects|
  {
    var n := |effects| - 1;
    assert effects[n] in effects;
    if effects[n] != e {
      assert effects == effects[..n] + [effects[n]];
      LastIsAny(effects[..n], f, e);
    }
  }

  lemma {:induction false} LastIsNone(effects: seq<Effect>, f: Field)
    requires forall d :: d in effects ==> !(d.Sets? && d.field == f)
    ensures LastValue(effects, f) == None
    decreases |effects|
  {
    if effects != [] {
      var n := |effects| - 1;
      assert effects[n] in effects;
      assert forall d :: d in effects[..n] ==> d in effects;
      LastIsNone(effects[..n], f);
    }
  }

  lemma EffectMember(args: seq<Bytes>, effector: Bytes -> Effect, e: Effect)
    ensures e in Effects(args, effector) <==> exists x :: x in args && effector(x) == e
  {
    var effects := Effects(args, effector);
    if e in effects {
      var i :| 0 <= i < |effects| && effects[i] == e;
      assert args[i] in args;
    }
    if x :| x in args && effector(x) == e {
      var i :| 0 <= i < |args| && args[i] == x;
      assert effects[i] == e;
    }
  }

  lemma SameEffects(a: seq<Bytes>, b: seq<Bytes>, effector: Bytes -> Effect, e: Effect)
    requires forall x :: x in a <==> x in b
    ensures e in Effects(a, effector) <==> e in Effects(b, effector)
  {
    EffectMember(a, effector, e);
    EffectMember(b, effector, e);
  }

  lemma OneEffectPerField(a: seq<Bytes>, effector: Bytes -> Effect, e: Effect, d: Effect)
    requires Consistent(a, effector) && SameField(d, e)
    requires e in Effects(a, effector) && d in Effects(a, effector)
    ensures d == e
  {
    EffectMember(a, effector, e);
    EffectMember(a, effector, d);
  }

  lemma LastValueByMembers(ea: seq<Effect>, eb: seq<Effect>, f: Field)
    requires forall e :: e in ea <==> e in eb
    requires forall e, d :: e in ea && d in ea && SameField(d, e) ==> d == e
    ensures LastValue(ea, f) == LastValue(eb, f)
  {
    if e :| e in ea && e.Sets? && e.field == f {
      LastIsAny(ea, f, e);
      LastIsAny(eb, f, e);
    } else {
      LastIsNone(ea, f);
      LastIsNone(eb, f);
    }
  }

  lemma {:induction false} LastTemplateIsAny(args: seq<Bytes>, x: Bytes)
    requires x in args && FileTemplate(x).Some?
    requires forall y :: y in args && FileTemplate(y).Some? ==> y == x
    ensures LastTemplate(args) == FileTemplate(x)
    decreases |args|
  {
    var n := |args| - 1;
    if args[n] != x {
      assert args == args[..n] + [args[n]];
      LastTemplateIsAny(args[..n], x);
    }
  }

  lemma {:induction false} LastTemplateIsNone(args: seq<Bytes>)
    ensures LastTemplate(args) == None <==> forall y :: y in args ==> FileTemplate(y).None?
    decreases |args|
  {
    if args != [] {
      var n := |args| - 1;
      assert args == args[..n] + [args[n]];
      LastTemplateIsNone(args[..n]);
    }
  }

  lemma SettledByMembers(a: seq<Bytes>, b: seq<Bytes>, effector: Bytes -> Effect, strict: bool)
    requires forall x :: x in a <==> x in b
    requires Consistent(a, effector)
    ensures Settled(Effects(a, effector), strict) == Settled(Effects(b, effector), strict)
    ensures Fails in Effects(a, effector) <==> Fails in Effects(b, effector)
    ensures LastTemplate(a) == LastTemplate(b)
  {
    var ea, eb := Effects(a, effector), Effects(b, effector);
    forall e ensures e in ea <==> e in eb {
      SameEffects(a, b, effector, e);
    }
    forall e, d | e in ea && d in ea && SameField(d, e) ensures d == e {
      OneEffectPerField(a, effector, e, d);
    }
    forall f ensures LastValue(ea, f) == LastValue(eb, f) {
      LastValueByMembers(ea, eb, f);
    }
    if x :| x in a && FileTemplate(x).Some? {
      LastTemplateIsAny(a, x);
      LastTemplateIsAny(b, x);
    } else {
      LastTemplateIsNone(a);
      LastTemplateIsNone(b);
    }
  }

  lemma DistinctPositions(a: seq<Bytes>, effector: Bytes -> Effect)
    requires NoFieldTwice(a, effector)
    ensures Consistent(a, effector)
  {
    forall x, y | x in a && y in a && x != y
      ensures !SameField(effector(x), effector(y))
      ensures !(FileTemplate(x).Some? && FileTemplate(y).Some?)
    {
      var i :| 0 <= i < |a| && a[i] == x;
      var j :| 0 <= j < |a| && a[j] == y;
      assert i < j || j < i;
    }
  }

  /** Any order of arguments that set different fields gives the same result, wherever `strict` stands. */
  lemma ParseIgnoresOrder(a: seq<Bytes>, b: seq<Bytes>, env: Lookups)
    requires multiset(a) == multiset(b)
    requires NoFieldTwice(a, Effector("strict" in a, env))
    ensures ParseSpec(a, env) == ParseSpec(b, env)
  {
    forall x ensures x in a <==> x in b {
      assert x in a <==> x in multiset(a);
      assert x in b <==> x in multiset(b);
    }
    var effector := Effector("strict" in a, env);
    DistinctPositions(a, effector);
    SettledByMembers(a, b, effector, "strict" in a);
  }

  // ----- the strict check and the file that is used -----

  function KeyPart(arg: Bytes): Bytes {
    if SplitOnce(arg).Some? then SplitOnce(arg).value.key else arg
  }

  /** The part before the first '=' holds nothing that expansion would replace. */
  predicate PlainKey(arg: Bytes) {
    SlotFree(KeyPart(arg), SLOTS)
  }

  lemma SettingOf(arg: Bytes, k: Bytes, v: Bytes)
    requires arg == k + "=" + v && '=' !in k
    ensures SplitOnce(arg) == Some(Setting(k, v))
  {
    SplitAt(k, v);
  }

  lemma FileKeyIsPlain()
    ensures SlotFree("file", SLOTS) && '=' !in "file"
  {
    var k := "file";
    forall i | 0 <= i < |k| ensures !Active(k[i..], SLOTS) {
      assert k[i..][0] == k[i];
    }
  }

  /** An argument whose key is plain sets the field that its key names, to its expanded value. */
  lemma PlainKeyDecides(k: Bytes, v: Bytes, env: Lookups)
    requires '=' !in k && SlotFree(k, SLOTS)
    ensures ExpandedEffect(k + "=" + v, env) ==
            if ExpandVars(v, env).None? || FieldNamed(k).None? then Fails
            else SettingEffect(FieldNamed(k).value, ExpandVars(v, env).value)
  {
    ExpansionKeepsKey(k, v, env);
  }

  lemma FileEffect(t: Bytes, env: Lookups)
    ensures ExpandedEffect("file=" + t, env) ==
            if ExpandVars(t, env).None? then Fails else Sets(File, Text(ExpandVars(t, env).value))
  {
    FileKeyIsPlain();
    PlainKeyDecides("file", t, env);
    assert "file" + "=" == "file=";
  }

  lemma FileAllowed(t: Bytes)
    requires TrustSourceAllowed("file=" + t)
    ensures '~' !in t && !Occurs(t, 'h')
  {
    FileKeyIsPlain();
    assert "file" + "=" == "file=";
    SettingOf("file=" + t, "file", t);
  }

  lemma NotAWord(arg: Bytes)
    requires |arg| > 4 && arg[4] == '='
    ensures WordNamed(arg) == NoWord
  {
  }

  lemma FileArgument(t: Bytes, strict: bool, env: Lookups)
    requires EffectOf("file=" + t, strict, env) != Fails
    ensures ExpandVars(t, env).Some?
    ensures EffectOf("file=" + t, strict, env) == Sets(File, Text(ExpandVars(t, env).value))
    ensures strict ==> '~' !in t && !Occurs(t, 'h')
  {
    NotAWord("file=" + t);
    FileEffect(t, env);
    if strict {
      FileAllowed(t);
    }
  }

  lemma {:induction false} SlotFreeUnchanged(s: Bytes, slots: seq<Slot>, env: Lookups)
    requires SlotFree(s, slots)
    ensures Passes(s, slots, env) == Some(s)
    decreases |slots|
  {
    if slots != [] {
      forall k | 0 <= k < |s| ensures !StartsWith(s[k..], slots[0]) {
        assert !Active(s[k..], slots);
      }
      Untouched(s, slots[0], env);
      forall k | 0 <= k < |s| ensures !Active(s[k..], slots[1..]) {
        assert !Active(s[k..], slots);
      }
      SlotFreeUnchanged(s, slots[1..], env);
    }
  }

  lemma OnlySettingsSetFile(arg: Bytes, strict: bool, env: Lookups)
    requires SameField(EffectOf(arg, strict, env), Sets(File, Flag))
    ensures SameField(ExpandedEffect(arg, env), Sets(File, Flag))
  {
  }

  // ----- which arguments expansion can turn into `file=` -----

  /** Index of the first slot, or |s|. */
  function FirstActive(s: Bytes, slots: seq<Slot>): (j: nat)
    ensures j <= |s| && (j < |s| ==> ActiveAt(s, j, slots))
    ensures forall k :: 0 <= k < j ==> !ActiveAt(s, k, slots)
  {
    if s == "" || ActiveAt(s, 0, slots) then 0
    else
      var j := FirstActive(s[1..], slots);
      assert forall k: nat | 0 < k :: ActiveAt(s, k, slots) == ActiveAt(s[1..], k - 1, slots);
      1 + j
  }

  function WithoutPercents(s: Bytes): (r: Bytes)
    ensures r <= s && (r != "" ==> r[|r| - 1] != '%')
  {
    if s != "" && s[|s| - 1] == '%' then WithoutPercents(s[..|s| - 1]) else s
  }

  /** The text before the first slot that no expansion can change: a '%' right before the slot may
      be completed by the slot's value. */
  function LiteralHead(arg: Bytes): Bytes {
    WithoutPercents(arg[..FirstActive(arg, SLOTS)])
  }

  /** The argument holds a slot, and the text before it is part of "file". */
  predicate MayBecomeFile(arg: Bytes) {
    FirstActive(arg, SLOTS) < |arg| && LiteralHead(arg) <= "file"
  }

  lemma {:induction false} HeadKept(s: Bytes, n: nat, slots: seq<Slot>, env: Lookups)
    requires n <= |s| && NoneBefore(s, n, slots) && (n > 0 ==> s[n - 1] != '%')
    ensures var r := Passes(s, slots, env); r.Some? ==> n <= |r.value| && r.value[..n] == s[..n]
    decreases |slots|
  {
    if slots != [] && Pass(s, slots[0], env).Some? {
      var s' := Pass(s, slots[0], env).value;
      PassKeepsHead(s, n, slots, env);
      HeadKept(s', n, slots[1..], env);
    }
  }

  lemma PassKeepsHead(s: Bytes, n: nat, slots: seq<Slot>, env: Lookups)
    requires slots != [] && Pass(s, slots[0], env).Some?
    requires n <= |s| && NoneBefore(s, n, slots) && (n > 0 ==> s[n - 1] != '%')
    ensures var s' := Pass(s, slots[0], env).value;
            n <= |s'| && s'[..n] == s[..n] && NoneBefore(s', n, slots[1..]) && (n > 0 ==> s'[n - 1] != '%')
  {
    var i, s' := First(s, slots[0]), Pass(s, slots[0], env).value;
    PassIsSliced(s, slots[0], env);
    if i < |s| {
      ActiveIsActiveAt(s, i, slots);
      assert i >= n;
      assert s'[..n] == s[..n];
    }
    SameHead(s, s', n, slots);
  }

  lemma SameHead(s: Bytes, s': Bytes, n: nat, slots: seq<Slot>)
    requires slots != [] && n <= |s| && n <= |s'| && s'[..n] == s[..n]
    requires NoneBefore(s, n, slots) && (n > 0 ==> s[n - 1] != '%')
    ensures NoneBefore(s', n, slots[1..]) && (n > 0 ==> s'[n - 1] != '%')
  {
    assert forall k | 0 <= k < n :: s'[k] == s'[..n][k] == s[..n][k] == s[k];
    forall k | 0 <= k < n ensures !ActiveAt(s', k, slots[1..]) {
      assert !ActiveAt(s, k, slots);
    }
  }

  lemma LiteralHeadKept(arg: Bytes, env: Lookups)
    ensures var r := ExpandVars(arg, env); r.Some? ==> LiteralHead(arg) <= r.value
  {
    var head := LiteralHead(arg);
    HeadKept(arg, |head|, SLOTS, env);
    assert arg[..|head|] == head;
  }

  lemma {:induction false} NoSlotNoChange(arg: Bytes, env: Lookups)
    requires FirstActive(arg, SLOTS) == |arg|
    ensures ExpandVars(arg, env) == Some(arg)
  {
    forall i | 0 <= i < |arg| ensures !Active(arg[i..], SLOTS) {
      ActiveIsActiveAt(arg, i, SLOTS);
    }
    SlotFreeUnchanged(arg, SLOTS, env);
  }

  lemma ExpandsToFile(arg: Bytes, env: Lookups)
    requires SameField(ExpandedEffect(arg, env), Sets(File, Flag))
    ensures ExpandVars(arg, env).Some? && "file=" <= ExpandVars(arg, env).value
  {
    var parts := SplitOnce(ExpandVars(arg, env).value).value;
    OnlyFileNamesFile(parts.key);
    assert "file" + "=" == "file=" && ExpandVars(arg, env).value == "file=" + parts.value;
  }

  lemma PrefixesOfFile(head: Bytes, r: Bytes)
    requires head <= r && "file=" <= r
    ensures head <= "file" || "file=" <= head
  {
    if |head| >= 5 {
      assert head[..5] == r[..5] == "file=";
    } else {
      assert forall k | 0 <= k < |head| :: head[k] == r[k] == "file="[k] == "file"[k];
    }
  }

  lemma WrittenFileStays(arg: Bytes)
    requires FileTemplate(arg).Some?
    ensures !MayBecomeFile(arg)
  {
    FileKeyIsPlain();
    assert arg == "file" + "=" + arg[5..];
    SettingOf(arg, "file", arg[5..]);
    PlainKeyStays(arg);
  }

  /** Only arguments written `file=` and those that may become one set the file. */
  lemma FileSetterIsWrittenFile(arg: Bytes, env: Lookups)
    requires !MayBecomeFile(arg)
    requires SameField(ExpandedEffect(arg, env), Sets(File, Flag))
    ensures FileTemplate(arg).Some?
  {
    ExpandsToFile(arg, env);
    if FirstActive(arg, SLOTS) == |arg| {
      NoSlotNoChange(arg, env);
    } else {
      LiteralHeadKept(arg, env);
      PrefixesOfFile(LiteralHead(arg), ExpandVars(arg, env).value);
    }
  }

  /** A key part without slots never becomes another one. */
  lemma PlainKeyStays(arg: Bytes)
    requires PlainKey(arg)
    ensures !MayBecomeFile(arg)
  {
    var j, key := FirstActive(arg, SLOTS), KeyPart(arg);
    if j < |arg| {
      if j < |key| {
        KeySlot(arg, j);
      } else {
        var head := LiteralHead(arg);
        assert arg[|key|] == '=';
        KeepsEqualSign(arg[..j], |key|);
        EqualSignIsNotFile(head, |key|);
      }
    }
  }

  lemma EqualSignIsNotFile(head: Bytes, k: nat)
    requires k < |head| && head[k] == '='
    ensures !(head <= "file")
  {
  }

  lemma KeySlot(arg: Bytes, j: nat)
    requires PlainKey(arg) && j < |KeyPart(arg)|
    ensures !ActiveAt(arg, j, SLOTS)
  {
    var key := KeyPart(arg);
    assert !Active(key[j..], SLOTS);
    ActiveIsActiveAt(key, j, SLOTS);
    assert Var('=') !in SLOTS;
    assert forall k | 0 <= k < |key| :: arg[k] == key[k];
  }

  lemma {:induction false} KeepsEqualSign(s: Bytes, k: nat)
    requires k < |s| && s[k] == '='
    ensures k < |WithoutPercents(s)|
    decreases |s|
  {
    if s[|s| - 1] == '%' {
      KeepsEqualSign(s[..|s| - 1], k);
    }
  }

  lemma OnlyFileNamesFile(k: Bytes)
    requires FieldNamed(k) == Some(File)
    ensures k == "file"
  {
  }

  /** What the last `file=` template settles. */
  ghost predicate TemplateDecides(t: Option<Bytes>, v: Option<Value>, strict: bool, env: Lookups) {
    if t.None? then v.None?
    else
      && ExpandVars(t.value, env).Some?
      && v == Some(Text(ExpandVars(t.value, env).value))
      && (strict ==> '~' !in t.value && !Occurs(t.value, 'h'))
  }

  ghost predicate FileOnlyByTemplate(arg: Bytes, effector: Bytes -> Effect, strict: bool, env: Lookups) {
    var t := FileTemplate(arg);
    var e := effector(arg);
    if t.None? then !SameField(e, Sets(File, Flag))
    else SameField(e, Sets(File, Flag)) && TemplateDecides(t, Some(e.value), strict, env)
  }

  lemma FileOnlyByTemplateUnless(arg: Bytes, strict: bool, env: Lookups)
    requires !MayBecomeFile(arg) && EffectOf(arg, strict, env) != Fails
    ensures FileOnlyByTemplate(arg, Effector(strict, env), strict, env)
  {
    var t := FileTemplate(arg);
    if t.Some? {
      FileArgument(t.value, strict, env);
    } else if SameField(EffectOf(arg, strict, env), Sets(File, Flag)) {
      OnlySettingsSetFile(arg, strict, env);
      FileSetterIsWrittenFile(arg, env);
    }
  }

  /** Every argument that may become `file=` has a written one after it. */
  ghost predicate NoDisguise(args: seq<Bytes>) {
    forall i :: 0 <= i < |args| && MayBecomeFile(args[i]) ==> WrittenAfter(args, i)
  }

  ghost predicate WrittenAfter(args: seq<Bytes>, i: nat) {
    exists j :: i < j < |args| && FileTemplate(args[j]).Some?
  }

  lemma NoDisguiseBefore(args: seq<Bytes>)
    requires args != [] && NoDisguise(args) && FileTemplate(args[|args| - 1]).None?
    ensures NoDisguise(args[..|args| - 1]) && !MayBecomeFile(args[|args| - 1])
  {
    var n := |args| - 1;
    assert !WrittenAfter(args, n);
    forall i | 0 <= i < n && MayBecomeFile(args[..n][i]) ensures WrittenAfter(args[..n], i) {
      assert WrittenAfter(args, i);
      var j :| i < j < |args| && FileTemplate(args[j]).Some?;
      assert args[..n][j] == args[j];
    }
  }

  lemma {:induction false} LastFileIsLastTemplate(args: seq<Bytes>, effector: Bytes -> Effect,
                                                  strict: bool, env: Lookups)
    requires NoDisguise(args)
    requires forall arg :: arg in args ==> MayBecomeFile(arg) || FileOnlyByTemplate(arg, effector, strict, env)
    ensures TemplateDecides(LastTemplate(args), LastValue(Effects(args, effector), File), strict, env)
    decreases |args|
  {
    if args != [] {
      var n := |args| - 1;
      var effects := Effects(args, effector);
      assert effects[n] == effector(args[n]) && args[n] in args;
      if FileTemplate(args[n]).None? {
        NoDisguiseBefore(args);
        assert effects[..n] == Effects(args[..n], effector);
        assert forall arg :: arg in args[..n] ==> arg in args;
        LastFileIsLastTemplate(args[..n], effector, strict, env);
      } else {
        WrittenFileStays(args[n]);
      }
    }
  }

  /** In strict mode the file that is used comes from a template that names the user and holds
      no home directory. */
  lemma StrictFileIsPerUser(args: seq<Bytes>, env: Lookups)
    requires ParseSpec(args, env).Some? && "strict" in args && NoDisguise(args)
    ensures LastTemplate(args).Some?
    ensures var t := LastTemplate(args).value;
            && Occurs(t, 'u') && '~' !in t && !Occurs(t, 'h')
            && ExpandVars(t, env) == Some(ParseSpec(args, env).value.file)
  {
    var effector := Effector(true, env);
    forall arg | arg in args && !MayBecomeFile(arg) ensures FileOnlyByTemplate(arg, effector, true, env) {
      EffectMember(args, effector, Fails);
      FileOnlyByTemplateUnless(arg, true, env);
    }
    LastFileIsLastTemplate(args, effector, true, env);
  }

  /** The same strict configuration never gives two users of a host the same policy file, unless its
      template runs the user and the uid together. */
  lemma StrictUsersGetDistinctFiles(args: seq<Bytes>, e1: Lookups, user1: Bytes, uid1: Option<Uid>,
                                    e2: Lookups, user2: Bytes, uid2: Option<Uid>)
    requires "strict" in args && ParseSpec(args, e1).Some? && ParseSpec(args, e2).Some? && NoDisguise(args)
    requires LastTemplate(args).Some? ==>
               SafeScan(LastTemplate(args).value, SHARED_SLOTS) && !Confusable(LastTemplate(args).value, NamesOf(e1))
    requires UserEnvironment(e1, user1, uid1) && UserEnvironment(e2, user2, uid2) && SameHost(e1, e2)
    requires user1 != user2
    ensures ParseSpec(args, e1).value.file != ParseSpec(args, e2).value.file
  {
    StrictFileIsPerUser(args, e1);
    StrictFileIsPerUser(args, e2);
    var t := LastTemplate(args).value;
    DistinctUsersDistinctExpansions(t, e1, user1, uid1, e2, user2, uid2);
  }

  // ----- a configuration that strict mode accepts -----

  lemma StrictIsNothing(env: Lookups)
    ensures EffectOf("strict", true, env) == Nothing
  {
    AsciiIsValid("strict");
  }

  lemma PerUserTemplateAllowed(t: Bytes)
    requires '~' !in t && !Occurs(t, 'h')
    ensures TrustSourceAllowed("file=" + t) && FileTemplate("file=" + t) == Some(t)
  {
    FileKeyIsPlain();
    assert "file" + "=" == "file=";
    SettingOf("file=" + t, "file", t);
  }

  lemma FileIsValid(t: Bytes)
    requires Valid(t)
    ensures Valid("file=" + t)
  {
    AsciiIsValid("file=");
    ValidConcat("file=", t);
  }

  lemma AllowedEffect(arg: Bytes, strict: bool, env: Lookups)
    requires Valid(arg) && WordNamed(arg) == NoWord && TrustSourceAllowed(arg)
    ensures EffectOf(arg, strict, env) == ExpandedEffect(arg, env)
  {
  }

  lemma PerUserFileEffect(t: Bytes, env: Lookups)
    requires Valid(t) && '~' !in t && !Occurs(t, 'h')
    ensures EffectOf("file=" + t, true, env) ==
            if ExpandVars(t, env).None? then Fails else Sets(File, Text(ExpandVars(t, env).value))
  {
    assert EffectOf("file=" + t, true, env) == ExpandedEffect("file=" + t, env) by {
      FileIsValid(t);
      NotAWord("file=" + t);
      PerUserTemplateAllowed(t);
      AllowedEffect("file=" + t, true, env);
    }
    FileEffect(t, env);
  }

  /** Strict mode accepts any template that names the user and no home directory, whenever it
      expands; nothing but the file is set, beside the strict defaults. */
  lemma PolicyOfTemplate(t: Bytes, env: Lookups)
    requires Valid(t) && Occurs(t, 'u') && '~' !in t && !Occurs(t, 'h')
    ensures ParseSpec(["strict", "file=" + t], env) ==
            if ExpandVars(t, env).None? then None
            else Some(Args(false, ExpandVars(t, env).value, None, None, None, None, true, false, Some(30)))
  {
    var arg := "file=" + t;
    StrictIsNothing(env);
    PerUserFileEffect(t, env);
    PerUserTemplateAllowed(t);
    TwoArguments("strict", arg, Effector(true, env));
    AppliedIsParsed(["strict", arg], true, env);
  }

  lemma TwoArguments(first: Bytes, second: Bytes, effector: Bytes -> Effect)
    requires effector(first) == Nothing
    requires FileTemplate(second).Some? && Occurs(FileTemplate(second).value, 'u')
    ensures var effects := Effects([first, second], effector);
            && (Fails in effects <==> effector(second) == Fails) && PerUser([first, second])
            && Applied(effects, true) == Apply(Initial(true), effector(second))
  {
    var effects := Effects([first, second], effector);
    assert effects == [Nothing, effector(second)];
    assert effects[..1] == [Nothing] && [Nothing][..0] == [];
    assert Applied([Nothing], true) == Apply(Applied([], true), Nothing);
  }

  /** Plain text around `%u` gives the user a file of that name. */
  lemma PerUserConfiguration(a: Bytes, b: Bytes, user: Bytes, env: Lookups)
    requires env.value('u') == Some(user) && InertFor(env, SHARED_SLOTS)
    requires Valid(a) && Valid(b) && Inert(a) && Inert(b) && '~' !in a && '~' !in b
    ensures ParseSpec(["strict", "file=" + (a + ("%u" + b))], env) ==
            Some(Args(false, a + (user + b), None, None, None, None, true, false, Some(30)))
  {
    var t := a + ("%u" + b);
    AsciiIsValid("%u");
    ValidConcat("%u", b);
    ValidConcat(a, "%u" + b);
    OnlySlot(a, b, 'u');
    assert t[|a|] == '%' && t[|a| + 1] == 'u';
    ExpandsAroundUser(a, b, user, env);
    PolicyOfTemplate(t, env);
  }

  lemma ExpandsAroundUser(a: Bytes, b: Bytes, user: Bytes, env: Lookups)
    requires env.value('u') == Some(user) && InertFor(env, SHARED_SLOTS)
    requires Inert(a) && Inert(b) && '~' !in a && '~' !in b
    ensures ExpandVars(a + ("%u" + b), env) == Some(a + (user + b))
  {
    OnlySlot(a, b, 'u');
    IsolatedPercentIsSafe(a + ("%u" + b), SHARED_SLOTS);
    ExpansionIsSharedScan(a + ("%u" + b), env);
    SharedWellOrdered();
    assert SHARED_SLOTS[1] == Var('u');
    ScanAround(a, b, 'u', SHARED_SLOTS, env);
  }
}
