/** The same options with and without `strict`. */
module LegacyOptions {
  import opened Outcomes
  import opened Utf8
  import opened Expansions
  import opened Arguments
  import opened ArgumentFacts

  function WithoutStrict(options: seq<Bytes>): (r: seq<Bytes>)
    ensures "strict" !in r && forall x :: x in r ==> x in options
    decreases |options|
  {
    if options == [] then []
    else
      var n := |options| - 1;
      WithoutStrict(options[..n]) + if options[n] == "strict" then [] else [options[n]]
  }

  /** An argument that strict mode accepts does the same without it. */
  lemma SameEffect(arg: Bytes, env: Lookups)
    requires EffectOf(arg, true, env) != Fails
    ensures EffectOf(arg, false, env) == EffectOf(arg, true, env)
    ensures arg == "strict" ==> EffectOf(arg, true, env) == Nothing
  {
  }

  ghost predicate SameWithout(options: seq<Bytes>, strict: Bytes -> Effect, legacy: Bytes -> Effect) {
    forall x :: x in options ==>
      && strict(x) != Fails && legacy(x) == strict(x)
      && (x == "strict" ==> strict(x) == Nothing)
  }

  lemma SameWithoutPrefix(options: seq<Bytes>, n: nat, strict: Bytes -> Effect, legacy: Bytes -> Effect)
    requires n <= |options| && SameWithout(options, strict, legacy)
    ensures SameWithout(options[..n], strict, legacy)
  {
    assert forall x :: x in options[..n] ==> x in options;
  }

  /** The last value once one more argument is there. */
  lemma LastValueSnoc(args: seq<Bytes>, x: Bytes, effector: Bytes -> Effect, f: Field)
    ensures LastValue(Effects(args + [x], effector), f) ==
            if effector(x).Sets? && effector(x).field == f then Some(effector(x).value)
            else LastValue(Effects(args, effector), f)
  {
    var longer := Effects(args + [x], effector);
    assert longer == Effects(args, effector) + [effector(x)];
    assert longer[..|longer| - 1] == Effects(args, effector);
  }

  lemma {:induction false} SameLastValue(options: seq<Bytes>, strict: Bytes -> Effect,
                                         legacy: Bytes -> Effect, f: Field)
    requires SameWithout(options, strict, legacy)
    ensures LastValue(Effects(options, strict), f) == LastValue(Effects(WithoutStrict(options), legacy), f)
    decreases |options|
  {
    if options != [] {
      var n := |options| - 1;
      var x, shorter := options[n], options[..n];
      assert x in options && options == shorter + [x];
      SameWithoutPrefix(options, n, strict, legacy);
      SameLastValue(shorter, strict, legacy, f);
      LastValueSnoc(shorter, x, strict, f);
      if x != "strict" {
        LastValueSnoc(WithoutStrict(shorter), x, legacy, f);
      } else {
        assert WithoutStrict(options) == WithoutStrict(shorter) + [] == WithoutStrict(shorter);
      }
    }
  }

  lemma NothingFails(options: seq<Bytes>, strict: Bytes -> Effect, legacy: Bytes -> Effect)
    requires SameWithout(options, strict, legacy)
    ensures Fails !in Effects(WithoutStrict(options), legacy)
  {
    EffectMember(WithoutStrict(options), legacy, Fails);
  }

  lemma AcceptedIsSame(options: seq<Bytes>, env: Lookups)
    requires "strict" in options && ParseSpec(options, env).Some?
    ensures SameWithout(options, Effector(true, env), Effector(false, env))
  {
    forall x | x in options
      ensures EffectOf(x, true, env) != Fails && EffectOf(x, false, env) == EffectOf(x, true, env)
      ensures x == "strict" ==> EffectOf(x, true, env) == Nothing
    {
      EffectMember(options, Effector(true, env), Fails);
      SameEffect(x, env);
    }
  }

  /** Options that strict mode accepts parse without `strict` too: the shortcut is then on, the
      timeout has no default, and everything else is the same. */
  lemma ParsesWithoutStrict(options: seq<Bytes>, env: Lookups)
    requires "strict" in options && ParseSpec(options, env).Some?
    ensures ParseSpec(WithoutStrict(options), env).Some?
    ensures var a, b := ParseSpec(options, env).value, ParseSpec(WithoutStrict(options), env).value;
            && a.strict && b == a.(strict := false, sshdShortcut := true, agentTimeout := b.agentTimeout)
            && a.agentTimeout == if b.agentTimeout.Some? then b.agentTimeout else Some(STRICT_TIMEOUT)
  {
    AcceptedIsSame(options, env);
    SettledWithoutStrict(options, Effector(true, env), Effector(false, env));
  }

  lemma SettledWithoutStrict(options: seq<Bytes>, strict: Bytes -> Effect, legacy: Bytes -> Effect)
    requires SameWithout(options, strict, legacy)
    ensures Fails !in Effects(WithoutStrict(options), legacy)
    ensures var a := Settled(Effects(options, strict), true);
            var b := Settled(Effects(WithoutStrict(options), legacy), false);
            && b == a.(strict := false, sshdShortcut := true, agentTimeout := b.agentTimeout)
            && a.agentTimeout == if b.agentTimeout.Some? then b.agentTimeout else Some(STRICT_TIMEOUT)
  {
    NothingFails(options, strict, legacy);
    forall f: Field
      ensures LastValue(Effects(options, strict), f) == LastValue(Effects(WithoutStrict(options), legacy), f)
    {
      SameLastValue(options, strict, legacy, f);
    }
  }

  lemma ShortcutEffect(arg: Bytes, env: Lookups)
    ensures SameField(EffectOf(arg, true, env), Sets(Shortcut, Flag)) ==> arg == "sshd_shortcut"
    ensures arg == "sshd_shortcut" ==> EffectOf(arg, true, env) in {Fails, Sets(Shortcut, Flag)}
  {
  }

  /** In strict mode the shortcut is on exactly when it is asked for. */
  lemma ShortcutIff(options: seq<Bytes>, env: Lookups)
    requires "strict" in options && ParseSpec(options, env).Some?
    ensures ParseSpec(options, env).value.sshdShortcut <==> "sshd_shortcut" in options
  {
    var effector := Effector(true, env);
    var effects := Effects(options, effector);
    EffectMember(options, effector, Fails);
    if "sshd_shortcut" in options {
      ShortcutEffect("sshd_shortcut", env);
      EffectMember(options, effector, Sets(Shortcut, Flag));
      LastIsSome(effects, Shortcut, Sets(Shortcut, Flag));
    } else {
      forall d | d in effects ensures !(d.Sets? && d.field == Shortcut) {
        EffectMember(options, effector, d);
        var x :| x in options && effector(x) == d;
        ShortcutEffect(x, env);
      }
      LastIsNone(effects, Shortcut);
    }
  }

  lemma {:induction false} LastIsSome(effects: seq<Effect>, f: Field, e: Effect)
    requires e in effects && e.Sets? && e.field == f
    ensures LastValue(effects, f).Some?
    decreases |effects|
  {
    var n := |effects| - 1;
    if !(effects[n].Sets? && effects[n].field == f) {
      assert effects == effects[..n] + [effects[n]];
      LastIsSome(effects[..n], f, e);
    }
  }
}
