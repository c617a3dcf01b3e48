/** Authentication runs against an agent: src/auth.rs. */
module Authentication {
  import opened Outcomes
  import opened Utf8
  import opened Policy

  type Challenge = Bytes

  datatype Certificate = Certificate(
    serial: nat, signatureKey: KeyData, publicKey: KeyData, isUser: bool,
    principals: seq<Bytes>, criticalOptions: seq<Bytes>)

  datatype Identity = PublicKey(key: KeyData) | Cert(cert: Certificate)

  datatype Signature = Signature(algorithm: Algorithm, bytes: seq<bv8>)

  datatype Reply = Signed(signature: Signature) | RemoteFailure | AgentError

  datatype Request = Request(identity: Identity, challenge: Challenge)

  /** What the code relies on and does not decide: certificate validation at a time, signature
      verification, the k-th draw of randomness, and an agent whose replies may depend on every
      request so far. */
  datatype Oracles = Oracles(
    validAt: (Certificate, nat) -> bool,
    verifies: (KeyData, Challenge, Signature) -> bool,
    draw: nat -> Option<Challenge>,
    reply: (seq<Request>, Identity, Challenge) -> Reply)

  datatype AuthError = ListFailed | NoRandomness | AgentFailed | BadSecurityKeySignature | BadSignature

  // ----- one identity -----

  /** `IdentityFilter::filter` */
  predicate Trusted(f: IdentityFilter, identity: Identity) {
    match identity
    case PublicKey(key) => key in f.keys
    case Cert(cert) => cert.signatureKey in f.caKeys
  }

  /** `validate_cert`; `now` is absent when the clock precedes the epoch. */
  predicate CertValid(cert: Certificate, now: Option<nat>, principal: Bytes, o: Oracles) {
    && now.Some? && o.validAt(cert, now.value)
    && cert.isUser
    && principal in cert.principals
    && cert.criticalOptions == []
  }

  predicate Usable(f: IdentityFilter, identity: Identity, now: Option<nat>, principal: Bytes, o: Oracles) {
    Trusted(f, identity) && (identity.Cert? ==> CertValid(identity.cert, now, principal, o))
  }

  function SigningKey(identity: Identity): KeyData {
    if identity.PublicKey? then identity.key else identity.cert.publicKey
  }

  predicate SecurityKey(key: KeyData) {
    key.algorithm in {SkEd25519, SkEcdsaSha2NistP256}
  }

  const USER_PRESENT: bv8 := 0x01
  const USER_VERIFIED: bv8 := 0x04

  /** `validate_sk_signature` */
  predicate SecurityKeySignatureValid(identity: Identity, signature: Signature) {
    var key := SigningKey(identity);
    var n := |signature.bytes|;
    SecurityKey(key) ==>
      && signature.algorithm == key.algorithm && n >= 5
      && signature.bytes[n - 5] & USER_PRESENT != 0
      && signature.bytes[n - 5] & USER_VERIFIED != 0
  }

  /** A security-key signature ends in a flag byte and a four-byte counter (PROTOCOL.u2f of
      OpenSSH): it is accepted exactly when the algorithm is the key's and both flags are set.  Other
      keys are not asked for flags. */
  lemma SecurityKeyFlags(identity: Identity, algorithm: Algorithm, raw: seq<bv8>, flags: bv8, counter: seq<bv8>)
    requires |counter| == 4
    ensures var key := if identity.PublicKey? then identity.key else identity.cert.publicKey;
            if key.algorithm in {SkEd25519, SkEcdsaSha2NistP256} then
              && (SecurityKeySignatureValid(identity, Signature(algorithm, raw + [flags] + counter)) <==>
                    algorithm == key.algorithm && flags & 0x05 == 0x05)
              && !SecurityKeySignatureValid(identity, Signature(algorithm, counter))
            else
              SecurityKeySignatureValid(identity, Signature(algorithm, raw + [flags] + counter)) &&
              SecurityKeySignatureValid(identity, Signature(algorithm, counter))
  {
    var bytes := raw + [flags] + counter;
    assert bytes[|bytes| - 5] == flags;
    BothFlags(flags);
  }

  lemma BothFlags(flags: bv8)
    ensures flags & 0x05 == 0x05 <==> flags & USER_PRESENT != 0 && flags & USER_VERIFIED != 0
  {
  }

  /** The requests made and the challenges drawn so far. */
  datatype Trail = Trail(requests: seq<Request>, drawn: nat)

  datatype Outcome = Verified | Skipped | Failed(error: AuthError)

  /** `sign_and_verify` */
  function Attempt(identity: Identity, strict: bool, o: Oracles, t: Trail): (Outcome, Trail) {
    var challenge := o.draw(t.drawn);
    if challenge.None? then (Failed(NoRandomness), t.(drawn := t.drawn + 1))
    else
      var after := Trail(t.requests + [Request(identity, challenge.value)], t.drawn + 1);
      match o.reply(t.requests, identity, challenge.value)
      case RemoteFailure => (Skipped, after)
      case AgentError => (Failed(AgentFailed), after)
      case Signed(signature) =>
        if strict && !SecurityKeySignatureValid(identity, signature) then (Failed(BadSecurityKeySignature), after)
        else if !o.verifies(SigningKey(identity), challenge.value, signature) then (Failed(BadSignature), after)
        else (Verified, after)
  }

  // ----- a run -----

  datatype Settings = Settings(filter: IdentityFilter, now: Option<nat>, principal: Bytes, oracles: Oracles)

  predicate Candidate(s: Settings, identity: Identity) {
    Usable(s.filter, identity, s.now, s.principal, s.oracles)
  }

  function Run(s: Settings, identities: seq<Identity>, t: Trail): (Result<bool, AuthError>, Trail)
    decreases |identities|
  {
    if identities == [] then (Ok(false), t)
    else if !Candidate(s, identities[0]) then Run(s, identities[1..], t)
    else
      var (outcome, after) := Attempt(identities[0], s.filter.strict, s.oracles, t);
      match outcome
      case Verified => (Ok(true), after)
      case Failed(error) => (Err(error), after)
      case Skipped => Run(s, identities[1..], after)
  }

  function Authenticate(s: Settings, listed: Option<seq<Identity>>, t: Trail): (Result<bool, AuthError>, Trail) {
    if listed.None? then (Err(ListFailed), t) else Run(s, listed.value, t)
  }

  // ----- the code -----

  /** The agent connection and the randomness source of one request. */
  class Agent {
    const oracles: Oracles
    const listing: Option<seq<Identity>>
    var trail: Trail

    constructor (oracles: Oracles, listing: Option<seq<Identity>>)
      ensures this.oracles == oracles && this.listing == listing && trail == Trail([], 0)
    {
      this.oracles, this.listing, trail := oracles, listing, Trail([], 0);
    }

    method Draw() returns (challenge: Option<Challenge>)
      modifies this`trail
      ensures challenge == oracles.draw(old(trail).drawn) && trail == old(trail).(drawn := old(trail).drawn + 1)
    {
      challenge := oracles.draw(trail.drawn);
      trail := trail.(drawn := trail.drawn + 1);
    }

    method Sign(identity: Identity, challenge: Challenge) returns (reply: Reply)
      modifies this`trail
      ensures reply == oracles.reply(old(trail).requests, identity, challenge)
      ensures trail == old(trail).(requests := old(trail).requests + [Request(identity, challenge)])
    {
      reply := oracles.reply(trail.requests, identity, challenge);
      trail := trail.(requests := trail.requests + [Request(identity, challenge)]);
    }
  }

  method SignAndVerify(identity: Identity, agent: Agent, strict: bool) returns (r: Outcome)
    modifies agent`trail
    ensures (r, agent.trail) == Attempt(identity, strict, agent.oracles, old(agent.trail))
  {
    var data := agent.Draw();
    if data.None? { return Failed(NoRandomness); }
    var reply := agent.Sign(identity, data.value);
    match reply {
      case RemoteFailure => return Skipped;
      case AgentError => return Failed(AgentFailed);
      case Signed(signature) =>
        if strict && !SecurityKeySignatureValid(identity, signature) {
          return Failed(BadSecurityKeySignature);
        }
        if !agent.oracles.verifies(SigningKey(identity), data.value, signature) {
          return Failed(BadSignature);
        }
        return Verified;
    }
  }

  method AuthenticateWith(filter: IdentityFilter, agent: Agent, now: Option<nat>, principal: Bytes)
    returns (r: Result<bool, AuthError>)
    modifies agent`trail
    ensures (r, agent.trail) ==
            Authenticate(Settings(filter, now, principal, agent.oracles), agent.listing, old(agent.trail))
    ensures agent.listing.None? ==> r == Err(ListFailed) && agent.trail == old(agent.trail)
  {
    if agent.listing.None? { return Err(ListFailed); }
    var identities := agent.listing.value;
    ghost var s := Settings(filter, now, principal, agent.oracles);
    for k := 0 to |identities|
      invariant Run(s, identities[k..], agent.trail) == Run(s, identities, old(agent.trail))
    {
      var identity := identities[k];
      assert identities[k..][0] == identity && identities[k..][1..] == identities[k + 1..];
      if Trusted(filter, identity) {
        if identity.Cert? && !CertValid(identity.cert, now, principal, agent.oracles) {
          continue;
        }
        var outcome := SignAndVerify(identity, agent, filter.strict);
        match outcome {
          case Verified => return Ok(true);
          case Failed(error) => return Err(error);
          case Skipped => continue;
        }
      }
    }
    return Ok(false);
  }

  // ----- decoys -----

  function Candidates(s: Settings, identities: seq<Identity>): (r: seq<Identity>)
    ensures forall i :: 0 <= i < |r| ==> r[i] in identities && Candidate(s, r[i])
    decreases |identities|
  {
    if identities == [] then []
    else (if Candidate(s, identities[0]) then [identities[0]] else []) + Candidates(s, identities[1..])
  }

  /** Only candidates matter to a run: not to its result, nor to what is drawn and requested. */
  lemma {:induction false} RunSeesCandidates(s: Settings, identities: seq<Identity>, t: Trail)
    ensures Run(s, identities, t) == Run(s, Candidates(s, identities), t)
    decreases |identities|
  {
    if identities != [] {
      var rest := Candidates(s, identities[1..]);
      if Candidate(s, identities[0]) {
        assert ([identities[0]] + rest)[1..] == rest;
        var (outcome, after) := Attempt(identities[0], s.filter.strict, s.oracles, t);
        RunSeesCandidates(s, identities[1..], after);
      } else {
        assert [] + rest == rest;
        RunSeesCandidates(s, identities[1..], t);
      }
    }
  }

  lemma {:induction false} CandidatesConcat(s: Settings, a: seq<Identity>, b: seq<Identity>)
    ensures Candidates(s, a + b) == Candidates(s, a) + Candidates(s, b)
    decreases |a|
  {
    if a == [] {
      assert a + b == b;
    } else {
      assert (a + b)[1..] == a[1..] + b;
      CandidatesConcat(s, a[1..], b);
    }
  }

  lemma {:induction false} NoCandidates(s: Settings, decoys: seq<Identity>)
    requires forall d :: d in decoys ==> !Candidate(s, d)
    ensures Candidates(s, decoys) == []
    decreases |decoys|
  {
    if decoys != [] {
      NoCandidates(s, decoys[1..]);
    }
  }

  /** Untrusted identities and invalid certificates, anywhere in the list, change nothing. */
  lemma DecoysDoNotInterfere(s: Settings, before: seq<Identity>, decoys: seq<Identity>, after: seq<Identity>, t: Trail)
    requires forall d :: d in decoys ==> !Candidate(s, d)
    ensures Run(s, before + decoys + after, t) == Run(s, before + after, t)
  {
    CandidatesConcat(s, before + decoys, after);
    CandidatesConcat(s, before, decoys);
    CandidatesConcat(s, before, after);
    NoCandidates(s, decoys);
    assert Candidates(s, before) + [] == Candidates(s, before);
    RunSeesCandidates(s, before + decoys + after, t);
    RunSeesCandidates(s, before + after, t);
  }

  /** What makes an identity a candidate, one by one: a listed key, or a certificate for the user,
      valid now, from a listed authority, without critical options. */
  lemma CandidatesAreEach(s: Settings, identity: Identity)
    ensures Candidates(s, [identity]) ==
            if match identity
               case PublicKey(key) => key in s.filter.keys
               case Cert(cert) =>
                 && cert.signatureKey in s.filter.caKeys
                 && s.now.Some? && s.oracles.validAt(cert, s.now.value)
                 && cert.isUser && s.principal in cert.principals && cert.criticalOptions == []
            then [identity] else []
  {
    var rest := [identity][1..];
    assert rest == [] && Candidates(s, rest) == [];
  }

  // ----- exactly how a run ends -----

  /** The challenge for the i-th candidate of a run. */
  function Challenged(s: Settings, i: nat, t: Trail): Option<Challenge> {
    s.oracles.draw(t.drawn + i)
  }

  ghost predicate Drawn(s: Settings, n: nat, t: Trail) {
    forall i :: 0 <= i < n ==> Challenged(s, i, t).Some?
  }

  /** The requests on record once the first `n` candidates have been asked, each with its own challenge. */
  function Asked(s: Settings, c: seq<Identity>, n: nat, t: Trail): seq<Request>
    decreases n
  {
    if n == 0 then t.requests
    else if n <= |c| && Challenged(s, n - 1, t).Some? then
      Asked(s, c, n - 1, t) + [Request(c[n - 1], Challenged(s, n - 1, t).value)]
    else Asked(s, c, n - 1, t)
  }

  /** What the agent answers to the n-th candidate. */
  function Answer(s: Settings, c: seq<Identity>, n: nat, t: Trail): Reply
    requires n < |c| && Challenged(s, n, t).Some?
  {
    s.oracles.reply(Asked(s, c, n, t), c[n], Challenged(s, n, t).value)
  }

  /** The first `k` candidates all got a challenge, and the agent failed for each of them. */
  ghost predicate PassedOver(s: Settings, c: seq<Identity>, k: nat, t: Trail) {
    && k <= |c|
    && forall i :: 0 <= i < k ==> Challenged(s, i, t).Some? && Answer(s, c, i, t) == RemoteFailure
  }

  /** What a signature over the challenge drawn for it makes of the run. */
  function Judged(s: Settings, identity: Identity, challenge: Challenge, signature: Signature)
    : Result<bool, AuthError>
  {
    var key := if identity.PublicKey? then identity.key else identity.cert.publicKey;
    var n := |signature.bytes|;
    if && s.filter.strict && key.algorithm in {SkEd25519, SkEcdsaSha2NistP256}
       && !(signature.algorithm == key.algorithm && n >= 5 && signature.bytes[n - 5] & 0x05 == 0x05)
    then Err(BadSecurityKeySignature)
    else if !s.oracles.verifies(key, challenge, signature) then Err(BadSignature)
    else Ok(true)
  }

  /** How a run ends that passes over `k` candidates. */
  ghost predicate EndsAt(s: Settings, c: seq<Identity>, k: nat, t: Trail, r: Result<bool, AuthError>, after: Trail) {
    && PassedOver(s, c, k, t)
    && (k == |c| ==> r == Ok(false) && after == Trail(Asked(s, c, k, t), t.drawn + k))
    && (k < |c| ==>
          var challenge := Challenged(s, k, t);
          && (challenge.None? ==> r == Err(NoRandomness) && after == Trail(Asked(s, c, k, t), t.drawn + k + 1))
          && (challenge.Some? ==>
                && after == Trail(Asked(s, c, k, t) + [Request(c[k], challenge.value)], t.drawn + k + 1)
                && match Answer(s, c, k, t)
                   case RemoteFailure => false
                   case AgentError => r == Err(AgentFailed)
                   case Signed(signature) => r == Judged(s, c[k], challenge.value, signature)))
  }

  /** A run asks its candidates in order and passes over those for which the agent fails, and only
      those; the next one decides, and without one the answer is no. */
  lemma RunDecidedByFirst(s: Settings, identities: seq<Identity>, t: Trail) returns (k: nat)
    ensures var (r, after) := Run(s, identities, t); EndsAt(s, Candidates(s, identities), k, t, r, after)
  {
    var c := Candidates(s, identities);
    RunSeesCandidates(s, identities, t);
    assert c[0..] == c;
    k := CandidatesDecide(s, c, t);
  }

  /** The run of the candidates from the n-th on, once those before it have been asked. */
  function Onwards(s: Settings, c: seq<Identity>, n: nat, t: Trail): (Result<bool, AuthError>, Trail)
    requires n <= |c|
  {
    Run(s, c[n..], Trail(Asked(s, c, n, t), t.drawn + n))
  }

  lemma CandidatesDecide(s: Settings, c: seq<Identity>, t: Trail) returns (k: nat)
    requires forall i :: 0 <= i < |c| ==> Candidate(s, c[i])
    ensures EndsAt(s, c, k, t, Onwards(s, c, 0, t).0, Onwards(s, c, 0, t).1)
  {
    k := 0;
    while k < |c| && Challenged(s, k, t).Some? && Answer(s, c, k, t) == RemoteFailure
      invariant PassedOver(s, c, k, t) && Onwards(s, c, k, t) == Onwards(s, c, 0, t)
    {
      MovesOn(s, c, k, t);
      k := k + 1;
    }
    if k < |c| {
      EndsHere(s, c, k, t);
    } else {
      NoneLeft(s, c, t);
    }
  }

  lemma NoneLeft(s: Settings, c: seq<Identity>, t: Trail)
    ensures Onwards(s, c, |c|, t) == (Ok(false), Trail(Asked(s, c, |c|, t), t.drawn + |c|))
  {
    assert c[|c|..] == [];
  }

  lemma MovesOn(s: Settings, c: seq<Identity>, n: nat, t: Trail)
    requires n < |c| && Candidate(s, c[n])
    requires Challenged(s, n, t).Some? && Answer(s, c, n, t) == RemoteFailure
    ensures Onwards(s, c, n, t) == Onwards(s, c, n + 1, t)
  {
    NextAsked(s, c, n, t);
  }

  lemma EndsHere(s: Settings, c: seq<Identity>, n: nat, t: Trail)
    requires n < |c| && Candidate(s, c[n]) && PassedOver(s, c, n, t)
    requires Challenged(s, n, t).Some? ==> Answer(s, c, n, t) != RemoteFailure
    ensures EndsAt(s, c, n, t, Onwards(s, c, n, t).0, Onwards(s, c, n, t).1)
  {
    NextAsked(s, c, n, t);
  }

  lemma NextAsked(s: Settings, c: seq<Identity>, n: nat, t: Trail)
    requires n < |c| && Candidate(s, c[n])
    ensures var challenge, now := Challenged(s, n, t), Trail(Asked(s, c, n, t), t.drawn + n);
            var run := Run(s, c[n..], now);
            && (challenge.None? ==> run == (Err(NoRandomness), now.(drawn := now.drawn + 1)))
            && (challenge.Some? ==>
                  var after := Trail(now.requests + [Request(c[n], challenge.value)], now.drawn + 1);
                  && after.requests == Asked(s, c, n + 1, t)
                  && run == match Answer(s, c, n, t)
                            case RemoteFailure => Run(s, c[n + 1..], after)
                            case AgentError => (Err(AgentFailed), after)
                            case Signed(signature) => (Judged(s, c[n], challenge.value, signature), after))
  {
    assert c[n..][0] == c[n] && c[n..][1..] == c[n + 1..];
    if Challenged(s, n, t).Some? && Answer(s, c, n, t).Signed? {
      JudgedAsCoded(s, c[n], Challenged(s, n, t).value, Answer(s, c, n, t).signature);
    }
  }

  lemma JudgedAsCoded(s: Settings, identity: Identity, challenge: Challenge, signature: Signature)
    ensures Judged(s, identity, challenge, signature) ==
            if s.filter.strict && !SecurityKeySignatureValid(identity, signature) then Err(BadSecurityKeySignature)
            else if !s.oracles.verifies(SigningKey(identity), challenge, signature) then Err(BadSignature)
            else Ok(true)
  {
    if |signature.bytes| >= 5 {
      BothFlags(signature.bytes[|signature.bytes| - 5]);
    }
  }

  /** Each candidate was asked once, in order, with the challenge drawn for it. */
  lemma {:induction false} AskedInOrder(s: Settings, c: seq<Identity>, n: nat, t: Trail)
    requires n <= |c| && Drawn(s, n, t)
    ensures var asked := Asked(s, c, n, t);
            && |asked| == |t.requests| + n && asked[..|t.requests|] == t.requests
            && forall i :: 0 <= i < n ==>
                 asked[|t.requests| + i] == Request(c[i], Challenged(s, i, t).value)
    decreases n
  {
    if n > 0 {
      AskedInOrder(s, c, n - 1, t);
    }
  }

  /** A request that proves a key: the agent signed its challenge, and the signature verified. */
  predicate Proven(s: Settings, before: seq<Request>, r: Request) {
    var reply := s.oracles.reply(before, r.identity, r.challenge);
    && Candidate(s, r.identity)
    && reply.Signed?
    && s.oracles.verifies(SigningKey(r.identity), r.challenge, reply.signature)
    && (s.filter.strict ==> SecurityKeySignatureValid(r.identity, reply.signature))
  }

  /** Success means that the last request of the run, with the challenge drawn for it, proves a
      listed candidate's key. */
  lemma {:induction false} SuccessIsProven(s: Settings, identities: seq<Identity>, t: Trail)
    requires Run(s, identities, t).0 == Ok(true)
    ensures var after := Run(s, identities, t).1;
            && |after.requests| > |t.requests| && after.drawn > t.drawn
            && var n := |after.requests| - 1;
               && after.requests[n].identity in identities
               && s.oracles.draw(after.drawn - 1) == Some(after.requests[n].challenge)
               && Proven(s, after.requests[..n], after.requests[n])
    decreases |identities|
  {
    if !Candidate(s, identities[0]) {
      SuccessIsProven(s, identities[1..], t);
    } else {
      var (outcome, after) := Attempt(identities[0], s.filter.strict, s.oracles, t);
      if outcome == Skipped {
        SuccessIsProven(s, identities[1..], after);
      } else {
        assert after.requests[..|after.requests| - 1] == t.requests;
      }
    }
  }

  /** For the same keys, challenges and replies, strictness changes neither what is requested nor
      the answer, except that it may turn the answer into an error. */
  lemma {:induction false} StrictOnlyRefuses(s: Settings, identities: seq<Identity>, t: Trail)
    requires s.filter.strict
    ensures var legacy := s.(filter := s.filter.(strict := false));
            && Run(s, identities, t).1 == Run(legacy, identities, t).1
            && (Run(s, identities, t).0 == Run(legacy, identities, t).0 || Run(s, identities, t).0.Err?)
    decreases |identities|
  {
    var legacy := s.(filter := s.filter.(strict := false));
    if identities != [] {
      assert Candidate(s, identities[0]) == Candidate(legacy, identities[0]);
      if Candidate(s, identities[0]) {
        var (outcome, after) := Attempt(identities[0], true, s.oracles, t);
        if outcome == Skipped {
          StrictOnlyRefuses(s, identities[1..], after);
        }
      } else {
        StrictOnlyRefuses(s, identities[1..], t);
      }
    }
  }
}
