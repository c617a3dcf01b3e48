/** Option parsing: src/args.rs. */
module Arguments {
  import opened Outcomes
  import opened Utf8
  import opened Expansions
  import opened Simultaneous
  import opened ExpansionFacts
  import opened Numerals

  const DEFAULT_FILE: Bytes := "/etc/security/authorized_keys"
  const STRICT_TIMEOUT: nat := 30

  datatype Args = Args(
    debug: bool,
    file: Bytes,
    defaultAuthSock: Option<Bytes>,
    caKeysFile: Option<Bytes>,
    keysCommand: Option<Bytes>,
    keysCommandUser: Option<Bytes>,
    strict: bool,
    sshdShortcut: bool,
    agentTimeout: Option<nat>)

  // ----- one argument -----

  datatype Field = Debug | Shortcut | File | AuthSock | CaKeysFile | KeysCommand | KeysCommandUser | Timeout

  datatype Value = Flag | Text(text: Bytes) | Seconds(seconds: nat)

  datatype Effect = Nothing | Sets(field: Field, value: Value) | Fails

  /** `validate_trust_source_argument` */
  predicate TrustSourceAllowed(argument: Bytes) {
    var parts := SplitOnce(argument);
    if parts.None? || parts.value.key !in ["file", "ca_keys_file", "authorized_keys_command"] then true
    else
      var value := parts.value.value;
      && '~' !in value && !Occurs(value, 'h')
      && (parts.value.key == "authorized_keys_command" ==>
            !Occurs(value, 'u') && !Occurs(value, 'U') && !Occurs(value, 'H') && !Occurs(value, 'f'))
  }

  const U64_LIMIT: nat := 0x1_0000_0000_0000_0000

  /** Decimal digits with an optional leading '+', below 2^64. */
  function ParseU64(s: Bytes): Option<nat> {
    var digits := if s != "" && s[0] == '+' then s[1..] else s;
    if digits == "" || !Digits(digits) || Decimal(digits) >= U64_LIMIT then None
    else Some(Decimal(digits))
  }

  /** The option that a key names. */
  function FieldNamed(key: Bytes): (field: Option<Field>)
    ensures field.Some? ==> field.value !in {Debug, Shortcut}
  {
    match key
    case "file" => Some(File)
    case "default_ssh_auth_sock" => Some(AuthSock)
    case "ca_keys_file" => Some(CaKeysFile)
    case "authorized_keys_command" => Some(KeysCommand)
    case "authorized_keys_command_user" => Some(KeysCommandUser)
    case "agent_timeout" => Some(Timeout)
    case _ => None
  }

  /** The arguments that stand alone. */
  datatype Word = DebugWord | StrictWord | ShortcutWord | NoWord

  function WordNamed(arg: Bytes): Word {
    match arg
    case "debug" => DebugWord
    case "strict" => StrictWord
    case "sshd_shortcut" => ShortcutWord
    case _ => NoWord
  }

  function SettingEffect(field: Field, value: Bytes): Effect {
    if field == Timeout then
      var seconds := ParseU64(value);
      if seconds.Some? && 1 <= seconds.value <= 300 then Sets(Timeout, Seconds(seconds.value)) else Fails
    else Sets(field, Text(value))
  }

  function ExpandedEffect(arg: Bytes, env: Lookups): Effect {
    var expanded := ExpandVars(arg, env);
    if expanded.None? then Fails
    else
      var parts := SplitOnce(expanded.value);
      if parts.None? then Fails
      else
        var field := FieldNamed(parts.value.key);
        if field.None? then Fails else SettingEffect(field.value, parts.value.value)
  }

  /** What one argument does, by itself. */
  function EffectOf(arg: Bytes, strict: bool, env: Lookups): Effect {
    if !Valid(arg) then Fails
    else
      match WordNamed(arg)
      case DebugWord => Sets(Debug, Flag)
      case StrictWord => Nothing
      case ShortcutWord => Sets(Shortcut, Flag)
      case NoWord => if strict && !TrustSourceAllowed(arg) then Fails else ExpandedEffect(arg, env)
  }

  /** The template of an argument written `file=...`. */
  function FileTemplate(arg: Bytes): (r: Option<Bytes>)
    ensures r.Some? ==> arg == "file=" + r.value
  {
    if "file=" <= arg then Some(arg[5..]) else None
  }

  // ----- the specification: the last argument that sets a field decides it -----

  function Effector(strict: bool, env: Lookups): Bytes -> Effect {
    arg => EffectOf(arg, strict, env)
  }

  function Effects(args: seq<Bytes>, effector: Bytes -> Effect): (r: seq<Effect>)
    ensures |r| == |args| && forall i :: 0 <= i < |args| ==> r[i] == effector(args[i])
  {
    seq(|args|, i requires 0 <= i < |args| => effector(args[i]))
  }

  function LastValue(effects: seq<Effect>, field: Field): Option<Value>
    decreases |effects|
  {
    if effects == [] then None
    else
      var n := |effects| - 1;
      if effects[n].Sets? && effects[n].field == field then Some(effects[n].value)
      else LastValue(effects[..n], field)
  }

  function LastText(effects: seq<Effect>, field: Field): Option<Bytes> {
    var v := LastValue(effects, field);
    if v.Some? && v.value.Text? then Some(v.value.text) else None
  }

  function LastSeconds(effects: seq<Effect>): Option<nat> {
    var v := LastValue(effects, Timeout);
    if v.Some? && v.value.Seconds? then Some(v.value.seconds) else None
  }

  function LastTemplate(args: seq<Bytes>): Option<Bytes>
    decreases |args|
  {
    if args == [] then None
    else
      var n := |args| - 1;
      if FileTemplate(args[n]).Some? then FileTemplate(args[n]) else LastTemplate(args[..n])
  }

  predicate PerUser(args: seq<Bytes>) {
    var t := LastTemplate(args);
    t.Some? && Occurs(t.value, 'u')
  }

  function Or<T>(o: Option<T>, default: T): T {
    if o.Some? then o.value else default
  }

  function OrElse<T>(o: Option<T>, other: Option<T>): Option<T> {
    if o.Some? then o else other
  }

  /** The values that the arguments settle on, before the final strict checks. */
  function Settled(effects: seq<Effect>, strict: bool): Args {
    Args(
      LastValue(effects, Debug).Some?,
      Or(LastText(effects, File), DEFAULT_FILE),
      LastText(effects, AuthSock),
      LastText(effects, CaKeysFile),
      LastText(effects, KeysCommand),
      LastText(effects, KeysCommandUser),
      strict,
      !strict || LastValue(effects, Shortcut).Some?,
      OrElse(LastSeconds(effects), if strict then Some(STRICT_TIMEOUT) else None))
  }

  /** The checks that strict mode makes at the end. */
  function Finish(a: Args, perUser: bool): Option<Args> {
    if a.strict && !perUser then None
    else if a.strict && a.keysCommand.Some? && !Absolute(a.keysCommand.value) then None
    else Some(a)
  }

  function ParseSpec(args: seq<Bytes>, env: Lookups): Option<Args> {
    var strict := "strict" in args;
    var effects := Effects(args, Effector(strict, env));
    if Fails in effects then None else Finish(Settled(effects, strict), PerUser(args))
  }

  /** How one more argument changes the settled values. */
  function Apply(a: Args, e: Effect): Args {
    if !e.Sets? then a
    else
      match e.field
      case Debug => a.(debug := true)
      case Shortcut => a.(sshdShortcut := true)
      case Timeout => if e.value.Seconds? then a.(agentTimeout := Some(e.value.seconds)) else a
      case _ => if e.value.Text? then ApplyText(a, e.field, e.value.text) else a
  }

  function ApplyText(a: Args, field: Field, text: Bytes): Args {
    match field
    case File => a.(file := text)
    case AuthSock => a.(defaultAuthSock := Some(text))
    case CaKeysFile => a.(caKeysFile := Some(text))
    case KeysCommand => a.(keysCommand := Some(text))
    case KeysCommandUser => a.(keysCommandUser := Some(text))
    case _ => a
  }

  predicate WellShaped(e: Effect) {
    e.Sets? ==>
      match e.field
      case Debug => e.value.Flag?
      case Shortcut => e.value.Flag?
      case Timeout => e.value.Seconds? && 1 <= e.value.seconds <= 300
      case _ => e.value.Text?
  }

  lemma EffectsWellShaped(arg: Bytes, strict: bool, env: Lookups)
    ensures WellShaped(EffectOf(arg, strict, env))
  {
  }

  lemma SettledStep(effects: seq<Effect>, e: Effect, strict: bool)
    requires WellShaped(e)
    ensures Settled(effects + [e], strict) == Apply(Settled(effects, strict), e)
  {
    var longer := effects + [e];
    assert longer[..|effects|] == effects;
    assert forall f :: LastValue(longer, f) ==
                       if e.Sets? && e.field == f then Some(e.value) else LastValue(effects, f);
  }

  function Initial(strict: bool): Args {
    Args(false, DEFAULT_FILE, None, None, None, None, strict, !strict, if strict then Some(STRICT_TIMEOUT) else None)
  }

  /** The arguments one after the other. */
  function Applied(effects: seq<Effect>, strict: bool): Args
    decreases |effects|
  {
    if effects == [] then Initial(strict)
    else
      var n := |effects| - 1;
      Apply(Applied(effects[..n], strict), effects[n])
  }

  /** Applying the arguments in turn leaves each field as its last setter does. */
  lemma {:induction false} AppliedIsSettled(effects: seq<Effect>, strict: bool)
    requires forall i :: 0 <= i < |effects| ==> WellShaped(effects[i])
    ensures Applied(effects, strict) == Settled(effects, strict)
    decreases |effects|
  {
    if effects != [] {
      var n := |effects| - 1;
      assert effects == effects[..n] + [effects[n]];
      AppliedIsSettled(effects[..n], strict);
      SettledStep(effects[..n], effects[n], strict);
    }
  }

  lemma PerUserStep(args: seq<Bytes>, k: nat)
    requires k < |args|
    ensures var t := FileTemplate(args[k]);
            PerUser(args[..k + 1]) == if t.Some? then Occurs(t.value, 'u') else PerUser(args[..k])
  {
    var longer := args[..k + 1];
    assert longer[..k] == args[..k] && longer[k] == args[k];
  }

  /** What the loop of `parse` relies on for its k-th argument, which does `e`. */
  lemma ArgumentStep(args: seq<Bytes>, k: nat, effector: Bytes -> Effect, strict: bool, e: Effect)
    requires k < |args| && e == effector(args[k])
    ensures var effects, t := Effects(args, effector), FileTemplate(args[k]);
            && (Fails in effects[..k + 1] <==> Fails in effects[..k] || e == Fails)
            && Applied(effects[..k + 1], strict) == Apply(Applied(effects[..k], strict), e)
            && PerUser(args[..k + 1]) == if t.Some? then Occurs(t.value, 'u') else PerUser(args[..k])
  {
    var effects := Effects(args, effector);
    assert effects[..k + 1] == effects[..k] + [e];
    PerUserStep(args, k);
  }

  lemma AppliedIsParsed(args: seq<Bytes>, strict: bool, env: Lookups)
    requires strict == ("strict" in args)
    ensures var effects := Effects(args, Effector(strict, env));
            ParseSpec(args, env) ==
            if Fails in effects then None else Finish(Applied(effects, strict), PerUser(args))
  {
    var effects := Effects(args, Effector(strict, env));
    forall i | 0 <= i < |effects| ensures WellShaped(effects[i]) {
      EffectsWellShaped(args[i], strict, env);
    }
    AppliedIsSettled(effects, strict);
  }

  // ----- the code -----

  /** The checks and the expansion that the loop makes for one argument. */
  method Interpret(arg: Bytes, strict: bool, env: Lookups) returns (e: Effect)
    ensures e == EffectOf(arg, strict, env) && WellShaped(e)
  {
    EffectsWellShaped(arg, strict, env);
    if !Valid(arg) { return Fails; }
    match WordNamed(arg) {
      case DebugWord => return Sets(Debug, Flag);
      case StrictWord => return Nothing;
      case ShortcutWord => return Sets(Shortcut, Flag);
      case NoWord =>
        if strict && !TrustSourceAllowed(arg) { return Fails; }
        var any := ExpandAll(arg, env);
        if any.None? { return Fails; }
        var parts := SplitOnce(any.value);
        if parts.None? { return Fails; }
        var field := FieldNamed(parts.value.key);
        if field.None? { return Fails; }
        return SettingEffect(field.value, parts.value.value);
    }
  }

  method Parse(args: seq<Bytes>, env: Lookups) returns (r: Option<Args>)
    ensures r == ParseSpec(args, env)
  {
    var debug := false;
    var file := DEFAULT_FILE;
    var defaultAuthSock: Option<Bytes> := None;
    var caKeysFile: Option<Bytes> := None;
    var keysCommand: Option<Bytes> := None;
    var keysCommandUser: Option<Bytes> := None;
    var strict := "strict" in args;
    var sshdShortcut := !strict;
    var agentTimeout := if strict then Some(STRICT_TIMEOUT) else None;
    var fileIsPerUser := false;
    ghost var effector := Effector(strict, env);
    ghost var effects := Effects(args, effector);
    AppliedIsParsed(args, strict, env);

    for k := 0 to |args|
      invariant Fails !in effects[..k]
      invariant Args(debug, file, defaultAuthSock, caKeysFile, keysCommand, keysCommandUser,
                     strict, sshdShortcut, agentTimeout) == Applied(effects[..k], strict)
      invariant fileIsPerUser == PerUser(args[..k])
    {
      var e := Interpret(args[k], strict, env);
      ArgumentStep(args, k, effector, strict, e);
      var template := FileTemplate(args[k]);
      if template.Some? {
        fileIsPerUser := Occurs(template.value, 'u');
      }
      match e {
        case Fails =>
          assert effects[k] == Fails;
          return None;
        case Nothing =>
        case Sets(field, value) =>
          match field {
            case Debug => debug := true;
            case Shortcut => sshdShortcut := true;
            case File => file := value.text;
            case AuthSock => defaultAuthSock := Some(value.text);
            case CaKeysFile => caKeysFile := Some(value.text);
            case KeysCommand => keysCommand := Some(value.text);
            case KeysCommandUser => keysCommandUser := Some(value.text);
            case Timeout => agentTimeout := Some(value.seconds);
          }
      }
    }
    assert args[..|args|] == args && effects[..|args|] == effects;
    if strict && !fileIsPerUser { return None; }
    if strict && keysCommand.Some? && !Absolute(keysCommand.value) { return None; }
    return Some(Args(debug, file, defaultAuthSock, caKeysFile, keysCommand, keysCommandUser,
                     strict, sshdShortcut, agentTimeout));
  }
}
