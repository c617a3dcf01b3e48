/** The decision of the module as a whole: src/lib.rs. */
module PamModule {
  import opened Outcomes
  import opened Utf8
  import opened Arguments
  import opened LegacyOptions
  import opened Host
  import opened Numerals
  import opened UserPaths
  import opened Policy
  import opened Authentication

  /** `SSH_AUTH_SOCK`, when it is set. */
  datatype Socket = Unset | Set(path: Bytes) | Undecodable

  /** The key that sshd reports, when it reports one. */
  datatype SshdKey = NoKey | BadKey | GoodKey(key: KeyData)

  /** Everything outside the module that one call meets. */
  datatype Surroundings = Surroundings(
    sources: Sources,
    lines: Bytes -> seq<Line>,
    service: Bytes,
    sshdKey: SshdKey,
    socket: Socket,
    connects: Bytes -> bool,
    listing: Option<seq<Identity>>,
    now: Option<nat>,
    oracles: Oracles)

  datatype Refusal = PolicyRefused(load: LoadError) | SshdKeyUnreadable | NoSocket | NoConnection
                   | AgentRun(auth: AuthError) | NoKeyMatched | BadUser(user: UserError) | RootHelper | OptionsRefused

  /** `check_sshd_special_case` */
  function SshdShortcut(f: IdentityFilter, around: Surroundings): Result<bool, Refusal> {
    if around.service != "sshd" then Ok(false)
    else
      match around.sshdKey
      case NoKey => Ok(false)
      case BadKey => Err(SshdKeyUnreadable)
      case GoodKey(key) => Ok(Trusted(f, PublicKey(key)))
  }

  /** `get_path` */
  function SocketPath(args: Args, around: Surroundings): Option<Bytes> {
    match around.socket
    case Set(path) => Some(path)
    case Undecodable => None
    case Unset => args.defaultAuthSock
  }

  function ByAgent(args: Args, user: Bytes, f: IdentityFilter, around: Surroundings): Result<(), Refusal> {
    var path := SocketPath(args, around);
    if path.None? then Err(NoSocket)
    else if !around.connects(path.value) then Err(NoConnection)
    else
      var (r, trail) := Authenticate(Settings(f, around.now, user, around.oracles), around.listing, Trail([], 0));
      match r
      case Err(error) => Err(AgentRun(error))
      case Ok(known) => if known then Ok(()) else Err(NoKeyMatched)
  }

  /** `do_authenticate` */
  function DoAuthenticate(args: Args, user: Bytes, around: Surroundings): Result<(), Refusal> {
    var filter := Load(around.sources, if args.strict then Strict else Legacy, around.lines);
    if filter.Err? then Err(PolicyRefused(filter.error))
    else
      var shortcut := if args.sshdShortcut then SshdShortcut(filter.value, around) else Ok(false);
      if shortcut.Err? then Err(shortcut.error)
      else if shortcut.value then Ok(())
      else ByAgent(args, user, filter.value, around)
  }

  /** The checks that `run` makes before a strict authentication. */
  function CheckUsers(args: Args, user: Bytes, system: System): Result<(), Refusal> {
    if !args.strict then Ok(())
    else
      var caller := ValidateStrictUser(user, system);
      if caller.Err? then Err(BadUser(caller.error))
      else if args.keysCommand.None? then Ok(())
      else
        var helper := if args.keysCommandUser.None? then caller
                      else ValidateStrictUser(args.keysCommandUser.value, system);
        if helper.Err? then Err(BadUser(helper.error))
        else if helper.value == 0 then Err(RootHelper)
        else Ok(())
  }

  /** `run`, for parsed arguments */
  function RunModule(args: Args, user: Bytes, system: System, around: Surroundings): Result<(), Refusal> {
    var users := CheckUsers(args, user, system);
    if users.Err? then users else DoAuthenticate(args, user, around)
  }

  /** What success of the whole module rests on. */
  ghost predicate Grounds(args: Args, user: Bytes, around: Surroundings) {
    || (args.sshdShortcut && around.service == "sshd" && around.sshdKey.GoodKey?
        && PlainEntry(around.sources, around.lines, around.sshdKey.key))
    || (exists identity, challenge, before, signature, k: nat ::
          && around.listing.Some? && identity in around.listing.value
          && around.oracles.draw(k) == Some(challenge)
          && around.oracles.reply(before, identity, challenge) == Signed(signature)
          && around.oracles.verifies(SigningKey(identity), challenge, signature)
          && (args.strict ==> SecurityKeySignatureValid(identity, signature))
          && Granted(identity, user, around))
  }

  /** The identity is a key that the policy lists, or a valid certificate for the user from an
      authority that it lists. */
  ghost predicate Granted(identity: Identity, user: Bytes, around: Surroundings) {
    match identity
    case PublicKey(key) => PlainEntry(around.sources, around.lines, key)
    case Cert(cert) =>
      && AuthorityEntry(around.sources, around.lines, cert.signatureKey)
      && around.now.Some? && around.oracles.validAt(cert, around.now.value)
      && cert.isUser && user in cert.principals && cert.criticalOptions == []
  }

  /** The module says yes only to a key that sshd vouches for and the policy lists, or to a listed
      identity, granted by the policy, whose signature over a drawn challenge verified. */
  lemma SuccessHasGrounds(args: Args, user: Bytes, system: System, around: Surroundings)
    requires RunModule(args, user, system, around).Ok?
    ensures Grounds(args, user, around)
  {
    var mode := if args.strict then Strict else Legacy;
    var f := Load(around.sources, mode, around.lines).value;
    var shortcut := if args.sshdShortcut then SshdShortcut(f, around) else Ok(false);
    if shortcut == Ok(true) {
      LoadTrusts(around.sources, mode, around.lines, around.sshdKey.key);
    } else {
      var s := Settings(f, around.now, user, around.oracles);
      SuccessIsProven(s, around.listing.value, Trail([], 0));
      var after := Run(s, around.listing.value, Trail([], 0)).1;
      var n := |after.requests| - 1;
      var r := after.requests[n];
      assert f.strict == args.strict;
      var key := if r.identity.PublicKey? then r.identity.key else r.identity.cert.signatureKey;
      LoadTrusts(around.sources, mode, around.lines, key);
      assert Granted(r.identity, user, around);
      var reply := around.oracles.reply(after.requests[..n], r.identity, r.challenge);
      assert around.oracles.draw(after.drawn - 1) == Some(r.challenge);
      assert reply == Signed(reply.signature);
    }
  }

  /** Strict success and the sshd shortcut: without `strict` the shortcut is on, and it fails where
      sshd reports a key that cannot be read. */
  lemma StrictRunAsLegacy(args: Args, legacy: Args, user: Bytes, system: System, around: Surroundings)
    requires args.strict && RunModule(args, user, system, around).Ok?
    requires legacy == args.(strict := false, sshdShortcut := true, agentTimeout := legacy.agentTimeout)
    ensures RunModule(legacy, user, system, around).Ok? <==>
            args.sshdShortcut || around.service != "sshd" || around.sshdKey != BadKey
  {
    var f := Load(around.sources, Strict, around.lines).value;
    StrictLoadIsLegacyLoad(around.sources, around.lines);
    assert SshdShortcut(f, around) == SshdShortcut(f.(strict := false), around);
    if around.listing.Some? {
      StrictOnlyRefuses(Settings(f, around.now, user, around.oracles), around.listing.value, Trail([], 0));
    }
  }

  /** `run`, from the options */
  function RunOptions(options: seq<Bytes>, user: Bytes, system: System, around: Surroundings): Result<(), Refusal> {
    var args := ParseSpec(options, LookupsFor(system, user));
    if args.None? then Err(OptionsRefused) else RunModule(args.value, user, system, around)
  }

  /** What strict options let in, the same options without `strict` let in too, exactly unless that
      turns on an sshd shortcut that fails. */
  lemma StrictNarrowsIff(options: seq<Bytes>, user: Bytes, system: System, around: Surroundings)
    requires "strict" in options && RunOptions(options, user, system, around).Ok?
    ensures RunOptions(WithoutStrict(options), user, system, around).Ok? <==>
            "sshd_shortcut" in options || around.service != "sshd" || around.sshdKey != BadKey
  {
    var env := LookupsFor(system, user);
    ParsesWithoutStrict(options, env);
    ShortcutIff(options, env);
    var args, legacy := ParseSpec(options, env).value, ParseSpec(WithoutStrict(options), env).value;
    StrictRunAsLegacy(args, legacy, user, system, around);
  }

  /** Strict success is for an existing account with a plain name, and any helper that was
      configured belongs to such an account other than root. */
  lemma StrictSuccessIsUnprivileged(args: Args, user: Bytes, system: System, around: Surroundings)
    requires args.strict && RunModule(args, user, system, around).Ok?
    ensures exists uid: Uid :: system.account(user) == Some(Account(user, uid))
    ensures user != "" && forall c :: c in "/.%~=" ==> c !in user
    ensures args.keysCommand.Some? ==>
              var helper := if args.keysCommandUser.Some? then args.keysCommandUser.value else user;
              exists uid: Uid :: system.account(helper) == Some(Account(helper, uid)) && uid > 0
  {
    StrictUserIsPlain(user, system);
    if args.keysCommand.Some? && args.keysCommandUser.Some? {
      StrictUserIsPlain(args.keysCommandUser.value, system);
    }
  }

  // ----- exactly when a run succeeds -----

  /** In strict mode the caller, and whoever runs a helper, is an accepted account; the helper's is not root's. */
  predicate UsersAccepted(args: Args, user: Bytes, system: System) {
    args.strict ==>
      && ValidateStrictUser(user, system).Ok?
      && (args.keysCommand.Some? ==>
            var helper := if args.keysCommandUser.Some? then args.keysCommandUser.value else user;
            ValidateStrictUser(helper, system).Ok? && ValidateStrictUser(helper, system).value > 0)
  }

  /** The path of the agent's socket: from the environment, or the configured one where that has none. */
  predicate AgentPath(args: Args, around: Surroundings, path: Bytes) {
    around.socket == Set(path) || (around.socket == Unset && args.defaultAuthSock == Some(path))
  }

  /** The shortcut applies: it is on, sshd asks, and it reports a key. */
  predicate ReportsKey(args: Args, around: Surroundings) {
    args.sshdShortcut && around.service == "sshd" && around.sshdKey != NoKey
  }

  /** The agent is reached and one of its identities proves itself. */
  ghost predicate AgentProves(args: Args, user: Bytes, f: IdentityFilter, around: Surroundings) {
    && (exists path :: AgentPath(args, around, path) && around.connects(path))
    && around.listing.Some?
    && Run(Settings(f, around.now, user, around.oracles), around.listing.value, Trail([], 0)).0 == Ok(true)
  }

  /** The module says yes exactly when the users are accepted, the policy loads, and sshd reports a
      listed key or, unless it reports one that cannot be read, the agent proves an identity. */
  lemma RunModuleIff(args: Args, user: Bytes, system: System, around: Surroundings)
    ensures var loaded := Load(around.sources, if args.strict then Strict else Legacy, around.lines);
            RunModule(args, user, system, around).Ok? <==>
            && UsersAccepted(args, user, system)
            && loaded.Ok?
            && var f := loaded.value;
               if ReportsKey(args, around) && around.sshdKey == BadKey then false
               else (ReportsKey(args, around) && around.sshdKey.key in f.keys) || AgentProves(args, user, f, around)
  {
    var path := SocketPath(args, around);
    assert forall p :: AgentPath(args, around, p) <==> path == Some(p);
  }

  /** Why it says no, the first reason in this order. */
  lemma RunModuleRefuses(args: Args, user: Bytes, system: System, around: Surroundings)
    requires RunModule(args, user, system, around).Err?
    ensures var r := RunModule(args, user, system, around).error;
            var loaded := Load(around.sources, if args.strict then Strict else Legacy, around.lines);
            var helper := if args.keysCommandUser.Some? then args.keysCommandUser.value else user;
            if !UsersAccepted(args, user, system) then
              if ValidateStrictUser(user, system).Ok? && ValidateStrictUser(helper, system).Ok? then r == RootHelper
              else r.BadUser?
            else if loaded.Err? then r == PolicyRefused(loaded.error)
            else if ReportsKey(args, around) && around.sshdKey == BadKey then r == SshdKeyUnreadable
            else if forall path :: !AgentPath(args, around, path) then r == NoSocket
            else if forall path :: AgentPath(args, around, path) ==> !around.connects(path) then r == NoConnection
            else if around.listing.None? then r == AgentRun(ListFailed)
            else
              var s := Settings(loaded.value, around.now, user, around.oracles);
              r == match Run(s, around.listing.value, Trail([], 0)).0
                   case Err(error) => AgentRun(error)
                   case Ok(_) => NoKeyMatched
  {
    var path := SocketPath(args, around);
    assert forall p :: AgentPath(args, around, p) <==> path == Some(p);
  }
}
