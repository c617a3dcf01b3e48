/** The environment behind the expansions: src/expansions.rs, expand_vars, and src/lib.rs,
    validate_strict_user. */
module Host {
  import opened Outcomes
  import opened Utf8
  import opened Expansions
  import opened Simultaneous
  import opened ExpansionFacts
  import opened Arguments
  import opened ArgumentFacts
  import opened Numerals
  import opened Outlines
  import opened UserPaths

  /** Names and accounts as the system reports them; every lookup may fail. */
  datatype System = System(
    homedir: Bytes -> Option<Bytes>,
    uid: Bytes -> Option<Uid>,
    account: Bytes -> Option<Account>,
    hostname: Option<Bytes>,
    fqdn: Option<Bytes>)

  function LetterValue(system: System, user: Bytes, letter: char): Option<Bytes> {
    match letter
    case 'h' => system.homedir(user)
    case 'H' => system.hostname
    case 'u' => Some(user)
    case 'f' => system.fqdn
    case 'U' => var uid := system.uid(user); if uid.Some? then Some(DecimalText(uid.value)) else None
    case _ => None
  }

  /** The lookups that `expand_vars` makes for the calling user. */
  function LookupsFor(system: System, user: Bytes): Lookups {
    Lookups(
      name => system.homedir(if name == "" then user else name),
      letter => LetterValue(system, user, letter))
  }

  /** `%u` and `%h` stand for the calling user and for that user's home directory. */
  lemma UserVariablesMean(system: System, user: Bytes, a: Bytes, b: Bytes)
    requires InertFor(LookupsFor(system, user), SLOTS)
    requires Inert(a) && Inert(b) && '~' !in a && '~' !in b
    ensures var env := LookupsFor(system, user);
            && ExpandVars(a + (['%', 'u'] + b), env) == Some(a + (user + b))
            && (system.homedir(user).Some? ==>
                  ExpandVars(a + (['%', 'h'] + b), env) == Some(a + (system.homedir(user).value + b)))
  {
    var env := LookupsFor(system, user);
    Expands(env, 'u', Some(user), a, b);
    Expands(env, 'h', system.homedir(user), a, b);
  }

  /** `%H` and `%f` stand for the host name and for the fully qualified one. */
  lemma HostVariablesMean(system: System, user: Bytes, a: Bytes, b: Bytes)
    requires InertFor(LookupsFor(system, user), SLOTS)
    requires Inert(a) && Inert(b) && '~' !in a && '~' !in b
    ensures var env := LookupsFor(system, user);
            && (system.hostname.Some? ==>
                  ExpandVars(a + (['%', 'H'] + b), env) == Some(a + (system.hostname.value + b)))
            && (system.fqdn.Some? ==>
                  ExpandVars(a + (['%', 'f'] + b), env) == Some(a + (system.fqdn.value + b)))
  {
    var env := LookupsFor(system, user);
    Expands(env, 'H', system.hostname, a, b);
    Expands(env, 'f', system.fqdn, a, b);
  }

  /** `%U` stands for decimal digits from which the uid can be read back. */
  lemma UidMeans(system: System, user: Bytes, a: Bytes, b: Bytes) returns (digits: Bytes)
    requires InertFor(LookupsFor(system, user), SLOTS) && system.uid(user).Some?
    requires Inert(a) && Inert(b) && '~' !in a && '~' !in b
    ensures digits != "" && Digits(digits) && Decimal(digits) == system.uid(user).value
    ensures ExpandVars(a + (['%', 'U'] + b), LookupsFor(system, user)) == Some(a + (digits + b))
  {
    digits := DecimalText(system.uid(user).value);
    DecimalRoundTrip(system.uid(user).value);
    Expands(LookupsFor(system, user), 'U', Some(digits), a, b);
  }

  lemma Expands(env: Lookups, x: char, value: Option<Bytes>, a: Bytes, b: Bytes)
    requires x in "hHufU" && env.value(x) == value && InertFor(env, SLOTS)
    requires Inert(a) && Inert(b) && '~' !in a && '~' !in b
    ensures value.Some? ==> ExpandVars(a + (['%', x] + b), env) == Some(a + (value.value + b))
  {
    LetterSlot(x);
    if value.Some? {
      VariableExpands(a, b, x, env);
    }
  }

  lemma LetterSlot(x: char)
    requires x in "hHufU"
    ensures Var(x) in SLOTS
  {
    var all := SLOTS;
    assert all[1] == Var('h') && all[2] == Var('H') && all[3] == Var('u') && all[4] == Var('f') && all[5] == Var('U');
  }

  datatype UserError = NotPlain | Unknown | NameMismatch

  /** `validate_strict_user` */
  function ValidateStrictUser(name: Bytes, system: System): Result<Uid, UserError> {
    if !PlainName(name) then Err(NotPlain)
    else
      var user := system.account(name);
      if user.None? then Err(Unknown)
      else if user.value.name != name then Err(NameMismatch)
      else Ok(user.value.uid)
  }

  /** An accepted user is an existing account whose name can neither leave a directory nor be
      expanded or split. */
  lemma StrictUserIsPlain(name: Bytes, system: System)
    requires ValidateStrictUser(name, system).Ok?
    ensures name != "" && forall c :: c in "/.%~=" ==> c !in name
    ensures system.account(name) == Some(Account(name, ValidateStrictUser(name, system).value))
  {
  }

  /** A name of ASCII letters, digits, '_' and '-' only. */
  predicate PlainLetters(name: Bytes) {
    name != "" && forall i :: 0 <= i < |name| ==>
      'a' <= name[i] <= 'z' || 'A' <= name[i] <= 'Z' || '0' <= name[i] <= '9' || name[i] in "-_"
  }

  /** Accepted are exactly the plain names of existing accounts that carry the very name. */
  lemma StrictUserIff(name: Bytes, system: System, uid: Uid)
    ensures ValidateStrictUser(name, system) == Ok(uid) <==>
            PlainLetters(name) && system.account(name) == Some(Account(name, uid))
    ensures ValidateStrictUser(name, system) == Err(NotPlain) <==> !PlainLetters(name)
    ensures ValidateStrictUser(name, system) == Err(Unknown) <==> PlainLetters(name) && system.account(name) == None
  {
  }

  ghost predicate PercentFreeHost(system: System) {
    && (system.hostname.Some? ==> Inert(system.hostname.value))
    && (system.fqdn.Some? ==> Inert(system.fqdn.value))
  }

  lemma LookupsInert(system: System, user: Bytes)
    requires PercentFreeHost(system) && Inert(user)
    ensures InertFor(LookupsFor(system, user), SHARED_SLOTS)
  {
    var env := LookupsFor(system, user);
    forall letter | Var(letter) in SHARED_SLOTS && env.value(letter).Some?
      ensures Inert(env.value(letter).value)
    {
      assert letter in "HufU";
    }
  }

  lemma AcceptedUserEnvironment(system: System, user: Bytes)
    requires ValidateStrictUser(user, system).Ok? && PercentFreeHost(system)
    ensures UserEnvironment(LookupsFor(system, user), user, system.uid(user))
  {
    StrictUserIsPlain(user, system);
    LookupsInert(system, user);
  }

  /** The names that a host reports, or nothing where a lookup fails. */
  function HostNames(system: System): Names {
    Names(if system.hostname.Some? then system.hostname.value else "",
          if system.fqdn.Some? then system.fqdn.value else "")
  }

  /** The file that a strict configuration settles on for a user. */
  function PolicyFile(args: seq<Bytes>, env: Lookups): Option<Bytes> {
    var parsed := ParseSpec(args, env);
    if parsed.Some? then Some(parsed.value.file) else None
  }

  lemma DistinctPolicyFiles(args: seq<Bytes>, e1: Lookups, user1: Bytes, uid1: Option<Uid>,
                            e2: Lookups, user2: Bytes, uid2: Option<Uid>)
    requires "strict" in args && NoDisguise(args)
    requires LastTemplate(args).Some? ==>
               SafeScan(LastTemplate(args).value, SHARED_SLOTS) && !Confusable(LastTemplate(args).value, NamesOf(e1))
    requires UserEnvironment(e1, user1, uid1) && UserEnvironment(e2, user2, uid2) && SameHost(e1, e2)
    requires user1 != user2
    ensures PolicyFile(args, e1).Some? ==> PolicyFile(args, e1) != PolicyFile(args, e2)
  {
    if PolicyFile(args, e1).Some? && PolicyFile(args, e2).Some? {
      StrictUsersGetDistinctFiles(args, e1, user1, uid1, e2, user2, uid2);
    }
  }

  /** Under one strict configuration whose template lets no value complete a '%' and does not run the
      user and the uid together on this host, two different accepted users never share a policy file. */
  lemma StrictUsersNeverShareFile(args: seq<Bytes>, system: System, user1: Bytes, user2: Bytes)
    requires "strict" in args && NoDisguise(args) && user1 != user2
    requires ValidateStrictUser(user1, system).Ok? && ValidateStrictUser(user2, system).Ok?
    requires PercentFreeHost(system)
    requires LastTemplate(args).Some? ==>
               SafeScan(LastTemplate(args).value, SHARED_SLOTS) &&
               !Confusable(LastTemplate(args).value, HostNames(system))
    ensures PolicyFile(args, LookupsFor(system, user1)).Some? ==>
              PolicyFile(args, LookupsFor(system, user1)) != PolicyFile(args, LookupsFor(system, user2))
  {
    var e1, e2 := LookupsFor(system, user1), LookupsFor(system, user2);
    AcceptedUserEnvironment(system, user1);
    AcceptedUserEnvironment(system, user2);
    assert NamesOf(e1) == HostNames(system);
    DistinctPolicyFiles(args, e1, user1, system.uid(user1), e2, user2, system.uid(user2));
  }

  // ----- exactly when two users share a file -----

  /** One account database answers every question about a user. */
  ghost predicate Coherent(system: System) {
    forall name ::
      && (system.account(name).Some? <==> system.uid(name).Some?)
      && (system.account(name).Some? ==> system.uid(name).value == system.account(name).value.uid)
      && (system.account(name).Some? <==> system.homedir(name).Some?)
  }

  function StrictOptions(t: Bytes): seq<Bytes> {
    ["strict", "file=" + t]
  }

  /** Two accepted users of a host of these names. */
  ghost predicate UsersOfHost(names: Names, system: System, user1: Bytes, user2: Bytes) {
    && Coherent(system) && system.hostname == Some(names.host) && system.fqdn == Some(names.fqdn)
    && ValidateStrictUser(user1, system).Ok? && ValidateStrictUser(user2, system).Ok? && user1 != user2
  }

  /** They have one policy file. */
  ghost predicate SharedFile(t: Bytes, names: Names, system: System, user1: Bytes, user2: Bytes) {
    && UsersOfHost(names, system, user1, user2)
    && PolicyFile(StrictOptions(t), LookupsFor(system, user1)).Some?
    && PolicyFile(StrictOptions(t), LookupsFor(system, user1)) ==
       PolicyFile(StrictOptions(t), LookupsFor(system, user2))
  }

  function Known(a1: Account, a2: Account, name: Bytes): Option<Account> {
    if name == a1.name then Some(a1) else if name == a2.name then Some(a2) else None
  }

  /** A host with two accounts. */
  function TwoUsers(a1: Account, a2: Account, names: Names): System {
    System(
      name => if Known(a1, a2, name).Some? then Some("/") else None,
      name => var a := Known(a1, a2, name); if a.Some? then Some(a.value.uid) else None,
      name => Known(a1, a2, name),
      Some(names.host), Some(names.fqdn))
  }

  lemma PolicyFileOfTemplate(t: Bytes, env: Lookups)
    requires Valid(t) && PerUserTemplate(t)
    ensures PolicyFile(StrictOptions(t), env) == ExpandVars(t, env)
  {
    PolicyOfTemplate(t, env);
  }

  lemma ConfusableIsShared(t: Bytes, names: Names) returns (system: System, user1: Bytes, user2: Bytes)
    requires Valid(t) && PerUserTemplate(t) && Inert(names.host) && Inert(names.fqdn)
    requires Confusable(t, names)
    ensures SharedFile(t, names, system, user1, user2)
  {
    var a1, a2 := ConfusableUsers(t, names);
    system, user1, user2 := TwoUsers(a1, a2, names), a1.name, a2.name;
    var e1, e2 := LookupsFor(system, user1), LookupsFor(system, user2);
    AcceptedUserEnvironment(system, user1);
    AcceptedUserEnvironment(system, user2);
    TogetherShare(t, names, a1, a2, e1, e2);
    PolicyFileOfTemplate(t, e1);
    PolicyFileOfTemplate(t, e2);
  }

  lemma SharedIsConfusable(t: Bytes, names: Names, system: System, user1: Bytes, user2: Bytes)
    requires PerUserTemplate(t) && Inert(names.host) && Inert(names.fqdn)
    requires UsersOfHost(names, system, user1, user2) && ExpandVars(t, LookupsFor(system, user1)).Some?
    requires ExpandVars(t, LookupsFor(system, user1)) == ExpandVars(t, LookupsFor(system, user2))
    ensures Confusable(t, names)
  {
    var e1, e2 := LookupsFor(system, user1), LookupsFor(system, user2);
    AcceptedUserEnvironment(system, user1);
    AcceptedUserEnvironment(system, user2);
    SameExpansionIsConfusable(t, names, e1, user1, system.uid(user1), e2, user2, system.uid(user2));
  }

  lemma SharedExpansion(t: Bytes, names: Names, system: System, user1: Bytes, user2: Bytes)
    requires Valid(t) && PerUserTemplate(t) && SharedFile(t, names, system, user1, user2)
    ensures ExpandVars(t, LookupsFor(system, user1)).Some?
    ensures ExpandVars(t, LookupsFor(system, user1)) == ExpandVars(t, LookupsFor(system, user2))
  {
    PolicyFileOfTemplate(t, LookupsFor(system, user1));
    PolicyFileOfTemplate(t, LookupsFor(system, user2));
  }

  lemma SameExpansionIsConfusable(t: Bytes, names: Names, e1: Lookups, user1: Bytes, uid1: Option<Uid>,
                                  e2: Lookups, user2: Bytes, uid2: Option<Uid>)
    requires PerUserTemplate(t) && user1 != user2
    requires UserEnvironment(e1, user1, uid1) && UserEnvironment(e2, user2, uid2)
    requires e1.value('H') == e2.value('H') == Some(names.host)
    requires e1.value('f') == e2.value('f') == Some(names.fqdn)
    requires ExpandVars(t, e1).Some? && ExpandVars(t, e1) == ExpandVars(t, e2)
    ensures Confusable(t, names)
  {
    assert NamesOf(e1) == names;
    if !Confusable(t, names) {
      DistinctUsersDistinctExpansions(t, e1, user1, uid1, e2, user2, uid2);
    }
  }

  /** On a host of given names, some two accepted users share the policy file of a strict template
      exactly when the template runs the user and the uid together there. */
  lemma UsersShareFileIffConfusable(t: Bytes, names: Names)
    requires Valid(t) && PerUserTemplate(t) && Inert(names.host) && Inert(names.fqdn)
    ensures Confusable(t, names) <==>
            exists system, user1, user2 :: SharedFile(t, names, system, user1, user2)
  {
    if Confusable(t, names) {
      var system, user1, user2 := ConfusableIsShared(t, names);
    }
    if system, user1, user2 :| SharedFile(t, names, system, user1, user2) {
      SharedExpansion(t, names, system, user1, user2);
      SharedIsConfusable(t, names, system, user1, user2);
    }
  }

  /** With at most eight literal characters between the two, no two users share a file on any host
      exactly when the uid is not in the template or one of those characters is not a digit. */
  lemma NeverSharedIffSetApart(t: Bytes)
    requires Valid(t) && PerUserTemplate(t) && CloseTogether(t)
    ensures SetApart(t) <==>
            forall names: Names, system, user1, user2 :: Inert(names.host) && Inert(names.fqdn) ==>
              !SharedFile(t, names, system, user1, user2)
  {
    ApartOnEveryHostIff(t);
    if SetApart(t) {
      forall names: Names, system, user1, user2 | Inert(names.host) && Inert(names.fqdn)
        ensures !SharedFile(t, names, system, user1, user2)
      {
        if SharedFile(t, names, system, user1, user2) {
          SharedExpansion(t, names, system, user1, user2);
          SharedIsConfusable(t, names, system, user1, user2);
        }
      }
    } else {
      var names: Names :| Inert(names.host) && Inert(names.fqdn) && Confusable(t, names);
      var system, user1, user2 := ConfusableIsShared(t, names);
    }
  }
}
