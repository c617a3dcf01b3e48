/** The option table as users write it: what one more option does to a list that is accepted, key by
    key: src/args.rs. */
module OptionTable {
  import opened Outcomes
  import opened Utf8
  import opened Numerals
  import opened Expansions
  import opened Simultaneous
  import opened ExpansionFacts
  import opened Arguments
  import opened ArgumentFacts
  import opened LegacyOptions

  /** Without any option: no debug log, the system's key file, the sshd shortcut, and nothing else. */
  lemma NoOptions(env: Lookups)
    ensures ParseSpec([], env) ==
            Some(Args(false, "/etc/security/authorized_keys", None, None, None, None, false, true, None))
  {
    assert Effects([], Effector(false, env)) == [];
  }

  // ----- one more argument -----

  /** Strict mode asks at the end for a file per user and for an absolute command. */
  predicate Finishes(a: Args, args: seq<Bytes>) {
    a.strict ==> PerUser(args) && (a.keysCommand.Some? ==> Absolute(a.keysCommand.value))
  }

  lemma OneMore(args: seq<Bytes>, arg: Bytes, env: Lookups)
    requires ParseSpec(args, env).Some? && (arg == "strict" ==> "strict" in args)
    ensures var a, strict := ParseSpec(args, env).value, "strict" in args;
            var e := EffectOf(arg, strict, env);
            && a.strict == strict && Finishes(a, args)
            && ParseSpec(args + [arg], env) ==
               if e == Fails || !Finishes(Apply(a, e), args + [arg]) then None else Some(Apply(a, e))
  {
    var strict := "strict" in args;
    var effector, longer := Effector(strict, env), args + [arg];
    var e := EffectOf(arg, strict, env);
    assert strict == ("strict" in longer);
    assert Effects(longer, effector) == Effects(args, effector) + [e];
    EffectsWellShaped(arg, strict, env);
    SettledStep(Effects(args, effector), e, strict);
    assert e.Sets? ==> Apply(Settled(Effects(args, effector), strict), e).strict == strict;
  }

  /** The per-user check goes by the last `file=` argument. */
  lemma PerUserAppended(args: seq<Bytes>, arg: Bytes)
    ensures PerUser(args + [arg]) == if "file=" <= arg then Occurs(arg[5..], 'u') else PerUser(args)
  {
    assert (args + [arg])[..|args|] == args;
  }

  // ----- the arguments that stand alone -----

  lemma DebugWordFacts(word: Bytes, strict: bool, env: Lookups)
    requires word == "debug"
    ensures EffectOf(word, strict, env) == Sets(Debug, Flag) && !("file=" <= word) && word != "strict"
  {
    AsciiIsValid(word);
  }

  lemma ShortcutWordFacts(word: Bytes, strict: bool, env: Lookups)
    requires word == "sshd_shortcut"
    ensures EffectOf(word, strict, env) == Sets(Shortcut, Flag) && !("file=" <= word) && word != "strict"
  {
    AsciiIsValid(word);
  }

  lemma StrictWordFacts(word: Bytes, strict: bool, env: Lookups)
    requires word == "strict"
    ensures EffectOf(word, strict, env) == Nothing && !("file=" <= word)
  {
    AsciiIsValid(word);
  }

  lemma WordAppended(args: seq<Bytes>, word: Bytes, env: Lookups)
    requires ParseSpec(args, env).Some? && (word == "strict" ==> "strict" in args) && !("file=" <= word)
    requires var e := EffectOf(word, "strict" in args, env);
             e == Nothing || e == Sets(Debug, Flag) || e == Sets(Shortcut, Flag)
    ensures ParseSpec(args + [word], env) ==
            Some(Apply(ParseSpec(args, env).value, EffectOf(word, "strict" in args, env)))
  {
    OneMore(args, word, env);
    PerUserAppended(args, word);
  }

  lemma DebugOption(args: seq<Bytes>, word: Bytes, env: Lookups)
    requires word == "debug" && ParseSpec(args, env).Some?
    ensures ParseSpec(args + [word], env) == Some(ParseSpec(args, env).value.(debug := true))
  {
    DebugWordFacts(word, "strict" in args, env);
    WordAppended(args, word, env);
  }

  lemma ShortcutOption(args: seq<Bytes>, word: Bytes, env: Lookups)
    requires word == "sshd_shortcut" && ParseSpec(args, env).Some?
    ensures ParseSpec(args + [word], env) == Some(ParseSpec(args, env).value.(sshdShortcut := true))
  {
    ShortcutWordFacts(word, "strict" in args, env);
    WordAppended(args, word, env);
  }

  lemma StrictAgain(args: seq<Bytes>, word: Bytes, env: Lookups)
    requires word == "strict" && "strict" in args && ParseSpec(args, env).Some?
    ensures ParseSpec(args + [word], env) == ParseSpec(args, env)
  {
    StrictWordFacts(word, true, env);
    WordAppended(args, word, env);
  }

  // ----- "key=value" -----

  /** Refers to no home directory. */
  predicate HomeFree(v: Bytes) {
    '~' !in v && !Occurs(v, 'h')
  }

  /** Refers to nothing at all. */
  predicate Plain(v: Bytes) {
    '~' !in v && !exists x :: x in "hHufU" && Occurs(v, x)
  }

  /** What strict mode allows in the value of a checked key. */
  predicate Allowed(key: Bytes, v: Bytes) {
    && (key == "file" || key == "ca_keys_file" || key == "authorized_keys_command" ==>
          HomeFree(v))
    && (key == "authorized_keys_command" ==>
          !Occurs(v, 'u') && !Occurs(v, 'U') && !Occurs(v, 'H') && !Occurs(v, 'f'))
  }

  lemma AllowedIff(key: Bytes, v: Bytes)
    requires '=' !in key
    ensures TrustSourceAllowed(key + "=" + v) <==> Allowed(key, v)
  {
    SplitAt(key, v);
  }

  /** An argument of UTF-8 with a key that expansion leaves alone. */
  ghost predicate KeyValue(key: Bytes, v: Bytes) {
    '=' !in key && SlotFree(key, SLOTS) && Valid(key + "=" + v)
  }

  lemma KeyValueIsNoWord(key: Bytes, v: Bytes)
    ensures WordNamed(key + "=" + v) == NoWord
  {
    assert (key + "=" + v)[|key|] == '=';
    assert forall word: Bytes | word in {"debug", "strict", "sshd_shortcut"} :: '=' !in word;
  }

  lemma KeyValueEffect(key: Bytes, v: Bytes, strict: bool, env: Lookups)
    requires KeyValue(key, v)
    ensures EffectOf(key + "=" + v, strict, env) ==
            if (strict && !Allowed(key, v)) || ExpandVars(v, env).None? || FieldNamed(key).None? then Fails
            else SettingEffect(FieldNamed(key).value, ExpandVars(v, env).value)
  {
    KeyValueIsNoWord(key, v);
    AllowedIff(key, v);
    PlainKeyDecides(key, v, env);
  }

  lemma AsciiKey(key: Bytes, v: Bytes)
    requires Valid(v) && forall i :: 0 <= i < |key| ==> 'a' <= key[i] <= 'z' || key[i] == '_'
    ensures KeyValue(key, v)
    ensures key != "file" ==> !("file=" <= key + "=" + v)
  {
    forall i | 0 <= i < |key| ensures !Active(key[i..], SLOTS) {
      assert key[i..][0] == key[i];
    }
    AsciiIsValid(key + "=");
    ValidConcat(key + "=", v);
    assert key + "=" + v == (key + "=") + v;
    if "file=" <= key + "=" + v {
      FilePrefix(key, v);
    }
  }

  lemma FilePrefix(key: Bytes, v: Bytes)
    requires '=' !in key && "file=" <= key + "=" + v
    ensures key == "file"
  {
    var s, name := key + "=" + v, "file=";
    assert SplitOnce(s) == Some(Setting(key, v)) by { SplitAt(key, v); }
    assert s == "file" + "=" + s[5..];
    SplitAt("file", s[5..]);
  }

  /** One more argument, other than for the file, that does `e`. */
  lemma EffectAppended(args: seq<Bytes>, arg: Bytes, e: Effect, env: Lookups)
    requires ParseSpec(args, env).Some? && !("file=" <= arg) && WordNamed(arg) == NoWord
    requires e == EffectOf(arg, "strict" in args, env)
    ensures var a := ParseSpec(args, env).value;
            var b := Apply(a, e);
            && (a.strict <==> "strict" in args) && (a.strict && a.keysCommand.Some? ==> Absolute(a.keysCommand.value))
            && ParseSpec(args + [arg], env) ==
               if e == Fails || (a.strict && b.keysCommand.Some? && !Absolute(b.keysCommand.value)) then None
               else Some(b)
  {
    OneMore(args, arg, env);
    PerUserAppended(args, arg);
  }

  /** What an argument does that sets a field to the expanded text, if that is allowed. */
  function TextEffect(field: Field, allowed: bool, r: Option<Bytes>): Effect {
    if allowed && r.Some? then Sets(field, Text(r.value)) else Fails
  }

  lemma LettersAllowed(key: Bytes, v: Bytes)
    requires key == "authorized_keys_command"
    ensures Allowed(key, v) <==> Plain(v)
  {
    var letters := "hHufU";
    assert letters[0] == 'h' && letters[1] == 'H' && letters[2] == 'u' && letters[3] == 'f' && letters[4] == 'U';
  }

  /** Keys whose values strict mode does not check. */
  lemma UncheckedKey(key: Bytes, v: Bytes, field: Field, strict: bool, env: Lookups)
    requires FieldNamed(key) == Some(field) && field != Timeout && Valid(v)
    requires forall i :: 0 <= i < |key| ==> 'a' <= key[i] <= 'z' || key[i] == '_'
    requires key != "file" && key != "ca_keys_file" && key != "authorized_keys_command"
    ensures !("file=" <= key + "=" + v) && WordNamed(key + "=" + v) == NoWord
    ensures EffectOf(key + "=" + v, strict, env) == TextEffect(field, true, ExpandVars(v, env))
  {
    AsciiKey(key, v);
    KeyValueIsNoWord(key, v);
    KeyValueEffect(key, v, strict, env);
  }

  lemma AuthSockKey(key: Bytes, v: Bytes, strict: bool, env: Lookups)
    requires key == "default_ssh_auth_sock" && Valid(v)
    ensures !("file=" <= key + "=" + v) && WordNamed(key + "=" + v) == NoWord
    ensures EffectOf(key + "=" + v, strict, env) == TextEffect(AuthSock, true, ExpandVars(v, env))
  {
    UncheckedKey(key, v, AuthSock, strict, env);
  }

  lemma AuthSockAppended(args: seq<Bytes>, arg: Bytes, v: Bytes, env: Lookups)
    requires ParseSpec(args, env).Some? && !("file=" <= arg) && WordNamed(arg) == NoWord
    requires var strict := "strict" in args;
             EffectOf(arg, strict, env) == TextEffect(AuthSock, true, ExpandVars(v, env))
    ensures var a, r := ParseSpec(args, env).value, ExpandVars(v, env);
            ParseSpec(args + [arg], env) ==
            if r.None? then None else Some(a.(defaultAuthSock := Some(r.value)))
  {
    EffectAppended(args, arg, TextEffect(AuthSock, true, ExpandVars(v, env)), env);
  }

  /** The socket where the environment names none. */
  lemma AuthSockOption(args: seq<Bytes>, key: Bytes, v: Bytes, env: Lookups)
    requires key == "default_ssh_auth_sock"
    requires ParseSpec(args, env).Some? && Valid(v)
    ensures var a, r := ParseSpec(args, env).value, ExpandVars(v, env);
            ParseSpec(args + [key + "=" + v], env) ==
            if r.None? then None else Some(a.(defaultAuthSock := Some(r.value)))
  {
    AuthSockKey(key, v, "strict" in args, env);
    AuthSockAppended(args, key + "=" + v, v, env);
  }

  lemma CommandUserKey(key: Bytes, v: Bytes, strict: bool, env: Lookups)
    requires key == "authorized_keys_command_user" && Valid(v)
    ensures !("file=" <= key + "=" + v) && WordNamed(key + "=" + v) == NoWord
    ensures EffectOf(key + "=" + v, strict, env) == TextEffect(KeysCommandUser, true, ExpandVars(v, env))
  {
    UncheckedKey(key, v, KeysCommandUser, strict, env);
  }

  lemma CommandUserAppended(args: seq<Bytes>, arg: Bytes, v: Bytes, env: Lookups)
    requires ParseSpec(args, env).Some? && !("file=" <= arg) && WordNamed(arg) == NoWord
    requires var strict := "strict" in args;
             EffectOf(arg, strict, env) == TextEffect(KeysCommandUser, true, ExpandVars(v, env))
    ensures var a, r := ParseSpec(args, env).value, ExpandVars(v, env);
            ParseSpec(args + [arg], env) ==
            if r.None? then None else Some(a.(keysCommandUser := Some(r.value)))
  {
    EffectAppended(args, arg, TextEffect(KeysCommandUser, true, ExpandVars(v, env)), env);
  }

  /** The user that runs the helper. */
  lemma CommandUserOption(args: seq<Bytes>, key: Bytes, v: Bytes, env: Lookups)
    requires key == "authorized_keys_command_user"
    requires ParseSpec(args, env).Some? && Valid(v)
    ensures var a, r := ParseSpec(args, env).value, ExpandVars(v, env);
            ParseSpec(args + [key + "=" + v], env) ==
            if r.None? then None else Some(a.(keysCommandUser := Some(r.value)))
  {
    CommandUserKey(key, v, "strict" in args, env);
    CommandUserAppended(args, key + "=" + v, v, env);
  }

  lemma CaFileKey(key: Bytes, v: Bytes, strict: bool, env: Lookups)
    requires key == "ca_keys_file" && Valid(v)
    ensures !("file=" <= key + "=" + v) && WordNamed(key + "=" + v) == NoWord
    ensures EffectOf(key + "=" + v, strict, env) == TextEffect(CaKeysFile, !strict || HomeFree(v), ExpandVars(v, env))
  {
    assert FieldNamed(key) == Some(CaKeysFile);
    AsciiKey(key, v);
    KeyValueIsNoWord(key, v);
    KeyValueEffect(key, v, strict, env);
  }

  lemma CaFileAppended(args: seq<Bytes>, arg: Bytes, v: Bytes, env: Lookups)
    requires ParseSpec(args, env).Some? && !("file=" <= arg) && WordNamed(arg) == NoWord
    requires var strict := "strict" in args;
             EffectOf(arg, strict, env) == TextEffect(CaKeysFile, !strict || HomeFree(v), ExpandVars(v, env))
    ensures var a, r := ParseSpec(args, env).value, ExpandVars(v, env);
            ParseSpec(args + [arg], env) ==
            if r.None? || (a.strict && !HomeFree(v)) then None
            else Some(a.(caKeysFile := Some(r.value)))
  {
    var strict := "strict" in args;
    EffectAppended(args, arg, TextEffect(CaKeysFile, !strict || HomeFree(v), ExpandVars(v, env)), env);
  }

  /** The file of authorities; in strict mode without a home directory. */
  lemma CaFileOption(args: seq<Bytes>, key: Bytes, v: Bytes, env: Lookups)
    requires key == "ca_keys_file"
    requires ParseSpec(args, env).Some? && Valid(v)
    ensures var a, r := ParseSpec(args, env).value, ExpandVars(v, env);
            ParseSpec(args + [key + "=" + v], env) ==
            if r.None? || (a.strict && !HomeFree(v)) then None
            else Some(a.(caKeysFile := Some(r.value)))
  {
    CaFileKey(key, v, "strict" in args, env);
    CaFileAppended(args, key + "=" + v, v, env);
  }

  lemma CommandKey(key: Bytes, v: Bytes, strict: bool, env: Lookups)
    requires key == "authorized_keys_command" && Valid(v)
    ensures !("file=" <= key + "=" + v) && WordNamed(key + "=" + v) == NoWord
    ensures EffectOf(key + "=" + v, strict, env) == TextEffect(KeysCommand, !strict || Plain(v), ExpandVars(v, env))
  {
    assert FieldNamed(key) == Some(KeysCommand);
    AsciiKey(key, v);
    KeyValueIsNoWord(key, v);
    KeyValueEffect(key, v, strict, env);
    LettersAllowed(key, v);
  }

  lemma CommandAppended(args: seq<Bytes>, arg: Bytes, v: Bytes, env: Lookups)
    requires ParseSpec(args, env).Some? && !("file=" <= arg) && WordNamed(arg) == NoWord
    requires var strict := "strict" in args;
             EffectOf(arg, strict, env) == TextEffect(KeysCommand, !strict || Plain(v), ExpandVars(v, env))
    ensures var a, r := ParseSpec(args, env).value, ExpandVars(v, env);
            ParseSpec(args + [arg], env) ==
            if r.None? || (a.strict && !Plain(v)) then None
            else if a.strict && (r.value == "" || r.value[0] != '/') then None
            else Some(a.(keysCommand := Some(r.value)))
  {
    var strict := "strict" in args;
    EffectAppended(args, arg, TextEffect(KeysCommand, !strict || Plain(v), ExpandVars(v, env)), env);
  }

  /** The helper; in strict mode without any variable, and absolute. */
  lemma CommandOption(args: seq<Bytes>, key: Bytes, v: Bytes, env: Lookups)
    requires key == "authorized_keys_command"
    requires ParseSpec(args, env).Some? && Valid(v)
    ensures var a, r := ParseSpec(args, env).value, ExpandVars(v, env);
            ParseSpec(args + [key + "=" + v], env) ==
            if r.None? || (a.strict && !Plain(v)) then None
            else if a.strict && (r.value == "" || r.value[0] != '/') then None
            else Some(a.(keysCommand := Some(r.value)))
  {
    CommandKey(key, v, "strict" in args, env);
    CommandAppended(args, key + "=" + v, v, env);
  }

  lemma FileKey(key: Bytes, v: Bytes)
    requires key == "file" && Valid(v)
    ensures FieldNamed(key) == Some(File) && KeyValue(key, v)
    ensures "file=" <= key + "=" + v && (key + "=" + v)[5..] == v
    ensures Allowed(key, v) <==> HomeFree(v)
  {
    AsciiKey(key, v);
  }

  /** The key file; in strict mode with the user's name and without a home directory. */
  lemma FileOption(args: seq<Bytes>, key: Bytes, v: Bytes, env: Lookups)
    requires key == "file"
    requires ParseSpec(args, env).Some? && Valid(v)
    ensures var a, r := ParseSpec(args, env).value, ExpandVars(v, env);
            ParseSpec(args + [key + "=" + v], env) ==
            if r.None? || (a.strict && (!HomeFree(v) || !Occurs(v, 'u'))) then None
            else Some(a.(file := r.value))
  {
    FileKey(key, v);
    FileAppended(args, key, v, env);
  }

  lemma FileAppended(args: seq<Bytes>, key: Bytes, v: Bytes, env: Lookups)
    requires FieldNamed(key) == Some(File) && KeyValue(key, v)
    requires "file=" <= key + "=" + v && (key + "=" + v)[5..] == v
    requires ParseSpec(args, env).Some?
    ensures var a, r := ParseSpec(args, env).value, ExpandVars(v, env);
            ParseSpec(args + [key + "=" + v], env) ==
            if r.None? || (a.strict && (!Allowed(key, v) || !Occurs(v, 'u'))) then None
            else Some(a.(file := r.value))
  {
    var arg := key + "=" + v;
    KeyValueIsNoWord(key, v);
    KeyValueEffect(key, v, "strict" in args, env);
    OneMore(args, arg, env);
    PerUserAppended(args, arg);
  }

  /** The text after an optional '+'. */
  function Unsigned(s: Bytes): Bytes {
    if s != "" && s[0] == '+' then s[1..] else s
  }

  /** An optional '+', any number of zeros, and the number as it is usually written. */
  predicate Writes(s: Bytes, n: nat) {
    var digits := Unsigned(s);
    exists k :: 0 <= k <= |digits| && digits[k..] == DecimalText(n) && Zeros(digits[..k])
  }

  predicate Zeros(s: Bytes) {
    forall i :: 0 <= i < |s| ==> s[i] == '0'
  }

  lemma {:induction false} LeadingZeros(digits: Bytes) returns (k: nat)
    requires digits != "" && Digits(digits)
    ensures k <= |digits| && Zeros(digits[..k]) && digits[k..] == DecimalText(Decimal(digits))
    decreases |digits|
  {
    if |digits| > 1 && digits[0] == '0' {
      k := LeadingZeros(digits[1..]);
      k := k + 1;
      ZerosDoNotCount(digits, 1);
      assert digits[1..][k - 1..] == digits[k..] && digits[..k] == ['0'] + digits[1..][..k - 1];
    } else {
      k := 0;
      assert digits[0..] == digits;
      CanonicalRoundTrip(digits);
    }
  }

  lemma {:induction false} ZerosDoNotCount(digits: Bytes, k: nat)
    requires Digits(digits) && k <= |digits| && Zeros(digits[..k])
    ensures Digits(digits[k..]) && Decimal(digits) == Decimal(digits[k..])
    decreases |digits|
  {
    if k < |digits| {
      var n := |digits| - 1;
      assert digits[..n][..k] == digits[..k] && digits[..n][k..] == digits[k..][..n - k];
      ZerosDoNotCount(digits[..n], k);
    } else if k > 0 {
      var n := |digits| - 1;
      assert digits[..n][..n] == digits[..k][..n] && digits[..n][n..] == "" && digits[k..] == "";
      assert digits[..k][n] == '0';
      ZerosDoNotCount(digits[..n], n);
    }
  }

  lemma ParsesNumber(s: Bytes, n: nat)
    ensures ParseU64(s) == Some(n) <==> n < 0x1_0000_0000_0000_0000 && Writes(s, n)
  {
    var digits := Unsigned(s);
    if digits != "" && Digits(digits) && Decimal(digits) == n {
      var k := LeadingZeros(digits);
    }
    if k :| 0 <= k <= |digits| && digits[k..] == DecimalText(n) && Zeros(digits[..k]) {
      WrittenNumber(digits, k, n);
    }
  }

  lemma WrittenNumber(digits: Bytes, k: nat, n: nat)
    requires k <= |digits| && digits[k..] == DecimalText(n) && Zeros(digits[..k])
    ensures digits != "" && Digits(digits) && Decimal(digits) == n
  {
    DecimalRoundTrip(n);
    forall i | 0 <= i < |digits| ensures '0' <= digits[i] <= '9' {
      assert i < k ==> digits[i] == digits[..k][i];
      assert i >= k ==> digits[i] == digits[k..][i - k];
    }
    ZerosDoNotCount(digits, k);
  }

  lemma TimeoutKey(key: Bytes, v: Bytes)
    requires key == "agent_timeout" && Valid(v)
    ensures FieldNamed(key) == Some(Timeout) && KeyValue(key, v) && !("file=" <= key + "=" + v) && Allowed(key, v)
  {
    AsciiKey(key, v);
  }

  /** The agent's time limit: a number of seconds from 1 to 300, and nothing else. */
  lemma TimeoutOption(args: seq<Bytes>, key: Bytes, v: Bytes, env: Lookups)
    requires key == "agent_timeout"
    requires ParseSpec(args, env).Some? && Valid(v)
    ensures var a, r := ParseSpec(args, env).value, ExpandVars(v, env);
            var parsed := ParseSpec(args + [key + "=" + v], env);
            && (forall n :: 1 <= n <= 300 && r.Some? && Writes(r.value, n) ==>
                  parsed == Some(a.(agentTimeout := Some(n))))
            && (parsed.Some? ==> exists n :: 1 <= n <= 300 && r.Some? && Writes(r.value, n))
  {
    TimeoutKey(key, v);
    TimeoutAppended(args, key, v, env);
    var r := ExpandVars(v, env);
    if r.Some? {
      forall n: nat ensures ParseU64(r.value) == Some(n) <==> n < 0x1_0000_0000_0000_0000 && Writes(r.value, n) {
        ParsesNumber(r.value, n);
      }
    }
  }

  lemma TimeoutAppended(args: seq<Bytes>, key: Bytes, v: Bytes, env: Lookups)
    requires FieldNamed(key) == Some(Timeout) && KeyValue(key, v) && !("file=" <= key + "=" + v) && Allowed(key, v)
    requires ParseSpec(args, env).Some?
    ensures var a, r := ParseSpec(args, env).value, ExpandVars(v, env);
            var seconds := if r.Some? then ParseU64(r.value) else None;
            ParseSpec(args + [key + "=" + v], env) ==
            if seconds.Some? && 1 <= seconds.value <= 300 then Some(a.(agentTimeout := seconds)) else None
  {
    var arg := key + "=" + v;
    KeyValueIsNoWord(key, v);
    KeyValueEffect(key, v, "strict" in args, env);
    OneMore(args, arg, env);
    PerUserAppended(args, arg);
  }

  // ----- what is refused -----

  /** Any other key, where expansion leaves it alone. */
  lemma OtherKeyFails(args: seq<Bytes>, key: Bytes, v: Bytes, env: Lookups)
    requires '=' !in key && SlotFree(key, SLOTS)
    requires key != "file" && key != "default_ssh_auth_sock" && key != "ca_keys_file"
    requires key != "authorized_keys_command" && key != "authorized_keys_command_user" && key != "agent_timeout"
    requires key + "=" + v in args
    ensures ParseSpec(args, env) == None
  {
    assert FieldNamed(key) == None;
    UnnamedFails(key, v, "strict" in args, env);
    FailsOnce(args, key + "=" + v, env);
  }

  lemma UnnamedFails(key: Bytes, v: Bytes, strict: bool, env: Lookups)
    requires '=' !in key && SlotFree(key, SLOTS) && FieldNamed(key) == None
    ensures EffectOf(key + "=" + v, strict, env) == Fails
  {
    if Valid(key + "=" + v) {
      KeyValueEffect(key, v, strict, env);
    }
  }

  lemma FailsOnce(args: seq<Bytes>, arg: Bytes, env: Lookups)
    requires arg in args && EffectOf(arg, "strict" in args, env) == Fails
    ensures ParseSpec(args, env) == None
  {
    EffectMember(args, Effector("strict" in args, env), Fails);
  }

  /** An argument that is not UTF-8, and one that is no word, has no '=' and is left alone by expansion. */
  lemma MalformedFails(args: seq<Bytes>, arg: Bytes, env: Lookups)
    requires arg in args
    requires !Valid(arg) ||
             ('=' !in arg && SlotFree(arg, SLOTS) && arg != "debug" && arg != "strict" && arg != "sshd_shortcut")
    ensures ParseSpec(args, env) == None
  {
    if Valid(arg) {
      SlotFreeUnchanged(arg, SLOTS, env);
      assert SplitOnce(arg).None?;
    }
    FailsOnce(args, arg, env);
  }

  /** Strict mode is on exactly when it is asked for, and a list that lacks it stays refused however
      it goes on. */
  lemma RefusalStays(args: seq<Bytes>, arg: Bytes, env: Lookups)
    requires "strict" !in args && arg != "strict" && ParseSpec(args, env).None?
    ensures ParseSpec(args + [arg], env).None?
  {
    var effector := Effector(false, env);
    assert Fails in Effects(args, effector);
    EffectMember(args, effector, Fails);
    EffectMember(args + [arg], effector, Fails);
    var x :| x in args && effector(x) == Fails;
    assert x in args + [arg];
  }

  /** A variable occurs where its two characters stand next to each other. */
  lemma OccursIff(t: Bytes, x: char)
    ensures Occurs(t, x) <==> exists a, b :: t == a + (['%', x] + b)
  {
    if Occurs(t, x) {
      var k :| 0 <= k < |t| - 1 && t[k] == '%' && t[k + 1] == x;
      assert t == t[..k] + (['%', x] + t[k + 2..]);
    }
    if a, b :| t == a + (['%', x] + b) {
      assert t[|a|] == '%' && t[|a| + 1] == x;
    }
  }
}
