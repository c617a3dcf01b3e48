/** Strict runs from the option list to the files that decide them: src/lib.rs, run, down to
    src/filter.rs, validate_components. */
module StrictRuns {
  import opened Outcomes
  import opened Utf8
  import opened Expansions
  import opened Simultaneous
  import opened ExpansionFacts
  import opened UserPaths
  import opened Arguments
  import opened ArgumentFacts
  import opened LegacyOptions
  import opened Host
  import opened FileSystem
  import opened SealedPaths
  import opened TrustPath
  import opened Policy
  import opened StrictPolicy
  import opened Authentication
  import opened PamModule

  // ----- what a success rests on -----

  /** Why a run succeeded: sshd vouched for a key, or an identity proved its own. */
  datatype Ground = BySshd(key: KeyData) | ByIdentity(identity: Identity)

  /** The key that the policy must trust, and whether it must do so as an authority. */
  function PolicyKey(g: Ground): KeyData {
    match g
    case BySshd(key) => key
    case ByIdentity(PublicKey(key)) => key
    case ByIdentity(Cert(cert)) => cert.signatureKey
  }

  predicate NeedsAuthority(g: Ground) {
    g.ByIdentity? && g.identity.Cert?
  }

  function LoadedPolicy(args: Args, around: Surroundings): Result<IdentityFilter, LoadError> {
    Load(around.sources, if args.strict then Policy.Strict else Policy.Legacy, around.lines)
  }

  /** The run of this call ended with a request to the identity whose reply, over the challenge drawn
      for it, verified. */
  ghost predicate ProvenLast(identity: Identity, f: IdentityFilter, user: Bytes, around: Surroundings) {
    around.listing.Some? && identity in around.listing.value &&
    var s := Settings(f, around.now, user, around.oracles);
    var (result, after) := Run(s, around.listing.value, Trail([], 0));
    var n := |after.requests| - 1;
    && result == Ok(true) && n >= 0 && after.drawn > 0
    && after.requests[n].identity == identity
    && around.oracles.draw(after.drawn - 1) == Some(after.requests[n].challenge)
    && Proven(s, after.requests[..n], after.requests[n])
  }

  ghost predicate Grounded(g: Ground, args: Args, user: Bytes, around: Surroundings) {
    LoadedPolicy(args, around).Ok? &&
    var f := LoadedPolicy(args, around).value;
    && PolicyKey(g) in (if NeedsAuthority(g) then f.caKeys else f.keys)
    && match g
       case BySshd(key) => args.sshdShortcut && around.service == "sshd" && around.sshdKey == GoodKey(key)
       case ByIdentity(identity) => ProvenLast(identity, f, user, around)
  }

  /** Success has a ground: sshd's key among the policy's keys, or a listed identity that proved
      itself, its key among the keys or its authority among the authorities. */
  lemma SuccessNamesGround(args: Args, user: Bytes, system: System, around: Surroundings) returns (g: Ground)
    requires RunModule(args, user, system, around).Ok?
    ensures Grounded(g, args, user, around)
  {
    var f := LoadedPolicy(args, around).value;
    var shortcut := if args.sshdShortcut then SshdShortcut(f, around) else Ok(false);
    if shortcut == Ok(true) {
      g := BySshd(around.sshdKey.key);
    } else {
      var s := Settings(f, around.now, user, around.oracles);
      SuccessIsProven(s, around.listing.value, Trail([], 0));
      var after := Run(s, around.listing.value, Trail([], 0)).1;
      g := ByIdentity(after.requests[|after.requests| - 1].identity);
    }
  }

  /** A strict configuration lets a user in only by a key that a line of the right kind trusts: for a
      plain key one without `cert-authority` in root's own key file for that user or in the helper's
      output, for a certificate's authority one with it, or any line of root's CA file.  Only root can
      change those files, or rebind their paths, whatever other processes did meanwhile. */
  lemma StrictSuccessIsRooted(options: seq<Bytes>, user: Bytes, system: System, around: Surroundings,
                              w: World, output: Option<Source>)
    returns (args: Args, g: Ground, line: Line, q: Place)
    requires "strict" in options && NoDisguise(options)
    requires RunOptions(options, user, system, around).Ok?
    requires var a := ParseSpec(options, LookupsFor(system, user)).value;
             around.sources == StrictSources(w, a.file, a.caKeysFile, output)
    ensures ParseSpec(options, LookupsFor(system, user)) == Some(args)
    ensures LastTemplate(options).Some? && Occurs(LastTemplate(options).value, 'u')
    ensures ExpandVars(LastTemplate(options).value, LookupsFor(system, user)) == Some(args.file)
    ensures Grounded(g, args, user, around) && line.Parsed? && line.key == PolicyKey(g)
    ensures !NeedsAuthority(g) ==>
              && CERT_AUTHORITY !in line.options
              && (RootsLine(w, args.file, q, around.lines, line) || SourceLine(output, around.lines, line))
    ensures NeedsAuthority(g) ==> AuthorityLine(w, args.file, args.caKeysFile, output, q, around.lines, line)
  {
    args := ParseSpec(options, LookupsFor(system, user)).value;
    StrictFileIsPerUser(options, LookupsFor(system, user));
    g := SuccessNamesGround(args, user, system, around);
    if NeedsAuthority(g) {
      line, q := StrictAuthorityIsRoots(w, args.file, args.caKeysFile, output, around.lines, PolicyKey(g));
    } else {
      line, q := StrictKeyIsRoots(w, args.file, args.caKeysFile, output, around.lines, PolicyKey(g));
    }
  }

  // ----- strict options that succeed where the same without `strict` fail -----

  const SOME_KEY: KeyData := KeyData(Ed25519, "")

  function OneUser(user: Bytes): System {
    System(_ => None, _ => None, name => if name == user then Some(Account(user, 1)) else None, None, None)
  }

  /** sshd reports a key that cannot be read, while the agent holds the listed key. */
  function UnreadableSshdKey(): Surroundings {
    Surroundings(
      Sources(Source.Text("key"), None, None), text => if text == "key" then [Parsed(SOME_KEY, [])] else [],
      "sshd", BadKey, Set("/agent"), _ => true,
      Some([PublicKey(SOME_KEY)]), None,
      Oracles((_, _) => false, (_, _, _) => true, _ => Some(""), (_, _, _) => Signed(Signature(Ed25519, []))))
  }

  lemma UnreadableSshdKeyDecides(args: Args, user: Bytes)
    requires args.strict && !args.sshdShortcut && args.keysCommand.None? && PlainName(user)
    ensures RunModule(args, user, OneUser(user), UnreadableSshdKey()) == Ok(())
    ensures RunModule(args.(strict := false, sshdShortcut := true), user, OneUser(user), UnreadableSshdKey()) ==
            Err(SshdKeyUnreadable)
  {
    var around := UnreadableSshdKey();
    var f := Load(around.sources, Policy.Strict, around.lines);
    OneLine(around.lines("key"), SOME_KEY);
    assert f.Ok? && SOME_KEY in f.value.keys;
    StrictLoadIsLegacyLoad(around.sources, around.lines);
    var s := Settings(f.value, around.now, user, around.oracles);
    assert Candidate(s, PublicKey(SOME_KEY));
    assert Run(s, [PublicKey(SOME_KEY)], Trail([], 0)).0 == Ok(true);
  }

  lemma OneLine(lines: seq<Line>, key: KeyData)
    requires lines == [Parsed(key, [])]
    ensures ParseStrict(lines, false) == Ok([Key(key)])
  {
    StrictRefinesLegacy(lines, false);
    assert Admissible(lines[0]);
    var rest: seq<Line> := [];
    assert lines[1..] == rest && ParseLegacy(rest, false) == [];
    assert ParseLegacy(lines, false) == [Key(key)] + ParseLegacy(rest, false) == [Key(key)];
  }

  /** With sshd's key unreadable, the options "strict file=/%u" let a user in who is refused once
      `strict` is left out. */
  lemma StrictAloneSucceeds(user: Bytes)
    requires PlainName(user)
    ensures var options := ["strict", "file=/%u"];
            && RunOptions(options, user, OneUser(user), UnreadableSshdKey()) == Ok(())
            && RunOptions(WithoutStrict(options), user, OneUser(user), UnreadableSshdKey()) == Err(SshdKeyUnreadable)
  {
    var options := ["strict", "file=/%u"];
    ParsesPlainly(user, LookupsFor(OneUser(user), user));
    UnreadableSshdKeyRefuses(options, user);
  }

  lemma UnreadableSshdKeyRefuses(options: seq<Bytes>, user: Bytes)
    requires PlainName(user) && "strict" in options
    requires var args := ParseSpec(options, LookupsFor(OneUser(user), user));
             args.Some? && !args.value.sshdShortcut && args.value.keysCommand.None?
    ensures RunOptions(options, user, OneUser(user), UnreadableSshdKey()) == Ok(())
    ensures RunOptions(WithoutStrict(options), user, OneUser(user), UnreadableSshdKey()) == Err(SshdKeyUnreadable)
  {
    var env := LookupsFor(OneUser(user), user);
    ParsesWithoutStrict(options, env);
    var a, b := ParseSpec(options, env).value, ParseSpec(WithoutStrict(options), env).value;
    UnreadableSshdKeyDecides(a, user);
    TimeoutDoesNotMatter(b, a.(strict := false, sshdShortcut := true), user, OneUser(user), UnreadableSshdKey());
  }

  lemma TimeoutDoesNotMatter(a: Args, b: Args, user: Bytes, system: System, around: Surroundings)
    requires a == b.(agentTimeout := a.agentTimeout)
    ensures RunModule(a, user, system, around) == RunModule(b, user, system, around)
  {
  }

  lemma ParsesPlainly(user: Bytes, env: Lookups)
    requires env == LookupsFor(OneUser(user), user) && PlainName(user)
    ensures "strict" in ["strict", "file=/%u"]
    ensures ParseSpec(["strict", "file=/%u"], env) ==
            Some(Args(false, "/" + user, None, None, None, None, true, false, Some(30)))
  {
    assert ["strict", "file=/%u"][0] == "strict";
    AsciiIsValid("/");
    LookupsInert(OneUser(user), user);
    PerUserConfiguration("/", "", user, env);
    assert "file=" + ("/" + ("%u" + "")) == "file=/%u" && user + "" == user;
  }
}
