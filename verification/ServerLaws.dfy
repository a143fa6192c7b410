/**
 What `Check` answers, in terms of the request, the settings and the stores: exactly when it allows, with which
 status it denies, and that the scopes of the policy as written are among those of every allowed token.
 */
module ServerLaws {
  import opened Text
  import opened StringLists
  import opened MemoryReplay
  import opened Conditions
  import opened Policy
  import opened PolicyLaws
  import opened Server
  import Scopes
  import RateLimit
  import Dpop

  // ---------- the gates, without their order ----------

  ghost predicate ClientAdmitted(cfg: Config, r: Request) {
    && cfg.configured && r.identityFault.None? && r.revocationFault.None? && r.tokenFault.None?
    && (Trim(r.token.cnfX5t) != "" ==> r.bindingFault.None?)
  }

  /** A token that is bound to a key comes with a proof that is valid now. */
  ghost predicate ProofAdmitted(cfg: Config, r: Request, now: int, required: string) {
    var p := r.proof;
    Trim(r.token.cnfJkt) != "" ==>
      && p.formFault.None? && p.keyFault.None? && p.hashFault.None? && Trim(p.jti) != ""
      && p.iat.Some? && now - Dpop.EffectiveMaxAge(cfg.maxAge) <= p.iat.value <= now + Dpop.EffectiveSkew(cfg.skew)
      && Dpop.NonceFits(p.nonce, required)
  }

  /** The nonce that the proof has to answer. */
  function AskedNonce(cfg: Config, v: View, now: int, ns: Nonces): string {
    if !cfg.nonceEnabled then ""
    else if Trim(v.nonce) == "" || now > v.nonceExp then ns.first
    else v.nonce
  }

  /** The cache would answer that it has seen the identifier. */
  ghost predicate Held(m: Mem, ttl: int, jti: string, now: int) {
    Trim(jti) in m.items && (now - m.last < ttl || m.items[Trim(jti)] >= now - ttl)
  }

  ghost predicate ProofUnseen(f: Fixed, v: View, r: Request, now: int) {
    Trim(r.token.cnfJkt) != "" && Trim(r.proof.jti) != "" ==> !Held(v.proofs.mem, f.proofTtl, r.proof.jti, now)
  }

  ghost predicate HolderAdmitted(r: Request) {
    Trim(r.token.cnfJkt) == "" && r.token.hasJwk ==> r.keyFault.None?
  }

  /** Whom the policy judges. */
  function Judged(r: Request, env: Env): Subject {
    Subject(Upper(Trim(r.method_)), NormalizePolicyPath(r.path), Some(r.token.claims), Some(r.identity), env)
  }

  ghost predicate ScopesAdmitted(required: seq<string>, held: seq<string>) {
    required == [] || (held != [] && forall y :: Configured(required, y) ==> Configured(held, y))
  }

  /** Within the limit of the decision, if it has one, for an identity that is known. */
  ghost predicate LimitAdmitted(v: View, d: PolicyDecision, r: Request, now: int) {
    d.rateLimit.Some? ==>
      var limit := d.rateLimit.value;
      var identity := LimitIdentity(limit.identityBy, r.token.claims, r.identity);
      && Trim(identity) != ""
      && RateLimit.Answer(v.limits, RateLimit.Request(identity, limit.maxRequests, limit.window, now)).1
  }

  /**
   The identity that a limit counts by: the attribute that the rule names, if the request has it, and otherwise the
   subject of the token, or that of the certificate.
   */
  lemma LimitIdentityMeans(mode: string, claims: TokenClaims, identity: ClientIdentity)
    ensures Lower(Trim(mode)) == "cert_subject" && Trim(identity.subject) != "" ==>
      LimitIdentity(mode, claims, identity) == "cert_subject:" + Trim(identity.subject)
    ensures Lower(Trim(mode)) == "cert_thumbprint" && Trim(identity.thumbprint) != "" ==>
      LimitIdentity(mode, claims, identity) == "cert_thumbprint:" + Trim(identity.thumbprint)
    ensures Lower(Trim(mode)) !in {"cert_subject", "cert_thumbprint"} && Trim(claims.subject) != "" ==>
      LimitIdentity(mode, claims, identity) == "token_subject:" + Trim(claims.subject)
    ensures LimitIdentity(mode, claims, identity) == "" <==>
      && Trim(claims.subject) == "" && Trim(identity.subject) == ""
      && (Lower(Trim(mode)) == "cert_thumbprint" ==> Trim(identity.thumbprint) == "")
  {
    hide Trim, Lower;
  }

  // ---------- each gate ----------

  lemma ClientMeans(cfg: Config, r: Request)
    ensures ClientFault(cfg, r).None? <==> ClientAdmitted(cfg, r)
  {
    hide Trim;
  }

  lemma AskedMeans(f: Fixed, v: View, r: Request, now: int, ns: Nonces)
    requires NeedsProof(r)
    ensures RequiredNonce(f, v, r, now, ns) == AskedNonce(f.cfg, v, now, ns)
  {
    hide Trim;
  }

  lemma ProofMeans(f: Fixed, v: View, r: Request, now: int, ns: Nonces)
    ensures ProofFault(f.cfg, r, now, RequiredNonce(f, v, r, now, ns)).None? <==>
      ProofAdmitted(f.cfg, r, now, AskedNonce(f.cfg, v, now, ns))
  {
    hide Trim, Dpop.ProofFault, Dpop.EffectiveMaxAge, Dpop.EffectiveSkew, Dpop.NonceFits, RequiredNonce, AskedNonce;
    if NeedsProof(r) {
      AskedMeans(f, v, r, now, ns);
      Dpop.ProofAccepted(r.proof, now, f.cfg.maxAge, f.cfg.skew, RequiredNonce(f, v, r, now, ns));
    }
  }

  lemma ReplayMeans(m: Mem, ttl: int, jti: string, now: int)
    ensures ReplayFault(m, ttl, jti, now) ==
      if Trim(jti) == "" then Some(401) else if Held(m, ttl, jti, now) then Some(403) else None
  {
    hide Trim;
  }

  lemma ProofReplayMeans(f: Fixed, v: View, r: Request, now: int)
    ensures ProofReplayFault(v.proofs.mem, f.proofTtl, r, now) == if ProofUnseen(f, v, r, now) then None else Some(403)
  {
    hide Trim, Held, ReplayFault;
    ReplayMeans(v.proofs.mem, f.proofTtl, r.proof.jti, now);
  }

  lemma HolderMeans(r: Request)
    ensures HolderFault(r).None? <==> HolderAdmitted(r)
  {
    hide Trim;
  }

  lemma JudgedMeans(p: PolicyValue, r: Request, env: Env)
    ensures DecisionFor(p, r, env) == Decide(p, Judged(r, env))
  {
    hide Decide;
    TrimIsTight(r.method_);
    PathForm(r.path);
    hide Trim, NormalizePolicyPath;
  }

  lemma DecisionMeans(server: seq<string>, d: PolicyDecision, r: Request)
    ensures DecisionFault(server, d, r) ==
      if !d.allowed then Some(d.status)
      else if ScopesAdmitted(server + d.requiredScopes, r.token.claims.scopes) then None
      else if r.token.claims.scopes == [] then Some(401)
      else Some(403)
  {
    hide Configured;
  }

  lemma LimitMeans(v: View, d: PolicyDecision, r: Request, now: int)
    ensures RateFault(v.limits, LimitRequest(d, r, now)) ==
      if LimitAdmitted(v, d, r, now) then None
      else if Trim(LimitIdentity(d.rateLimit.value.identityBy, r.token.claims, r.identity)) == "" then Some(401)
      else Some(429)
  {
    hide Trim, LimitIdentity, RateLimit.Answer;
  }

  // ---------- the answer ----------

  /** Everything that is settled before the policy is asked. */
  ghost predicate Authenticated(f: Fixed, v: View, r: Request, now: int, ns: Nonces) {
    && ClientAdmitted(f.cfg, r) && ProofAdmitted(f.cfg, r, now, AskedNonce(f.cfg, v, now, ns))
    && ProofUnseen(f, v, r, now) && HolderAdmitted(r)
  }

  lemma AuthenticatedMeans(f: Fixed, v: View, r: Request, now: int, ns: Nonces)
    ensures FaultBeforePolicy(f, v, r, now, ns).None? <==> Authenticated(f, v, r, now, ns)
  {
    hide ClientFault, ClientAdmitted, ProofFault, ProofAdmitted, AskedNonce, RequiredNonce, ProofUnseen,
      ProofReplayFault, HolderFault, HolderAdmitted;
    ClientMeans(f.cfg, r);
    ProofMeans(f, v, r, now, ns);
    ProofReplayMeans(f, v, r, now);
    HolderMeans(r);
  }

  /**
   `Check` allows a request exactly when its client, its proof and its key are in order, the proof is new, the policy
   allows it, the token has the scopes that the server and the decision require, the limit is not reached, and the
   token has an identifier that the cache does not hold.
   */
  lemma AllowedExactly(f: Fixed, v: View, r: Request, now: int, ns: Nonces, v': View, resp: Response)
    requires Checks(f, v, r, now, ns, v', resp)
    ensures
      var d := Decide(f.policy, Judged(r, f.cfg.env));
      resp.Allow? <==>
        && Authenticated(f, v, r, now, ns)
        && d.allowed && ScopesAdmitted(f.cfg.requiredScopes + d.requiredScopes, r.token.claims.scopes)
        && LimitAdmitted(v, d, r, now)
        && Trim(r.token.claims.jwtId) != "" && !Held(v.tokens.mem, f.tokenTtl, r.token.claims.jwtId, now)
  {
    hide FaultBeforePolicy, Authenticated, DecisionFault, DecisionFor, Decide, ScopesAdmitted, RateFault, LimitAdmitted,
      LimitRequest, ReplayFault, Held, Trim, CacheTouched, Consulted, NonceAfter, FaultBeforeProofs, Judged, DenyCode;
    var d := Decide(f.policy, Judged(r, f.cfg.env));
    AuthenticatedMeans(f, v, r, now, ns);
    JudgedMeans(f.policy, r, f.cfg.env);
    DecisionMeans(f.cfg.requiredScopes, d, r);
    LimitMeans(v, d, r, now);
    ReplayMeans(v.tokens.mem, f.tokenTtl, r.token.claims.jwtId, now);
  }

  /**
   What an allowed request is told: who it is, and a nonce that is not expired, which a proof that passed replaces and
   any other request leaves alone while it lasts.
   */
  lemma AllowedAnswer(f: Fixed, v: View, r: Request, now: int, ns: Nonces, v': View, resp: Response)
    requires Checks(f, v, r, now, ns, v', resp) && resp.Allow? && f.cfg.nonceTtl >= 0
    ensures resp.user == r.token.claims.subject && resp.certSubject == r.identity.subject
    ensures !f.cfg.nonceEnabled ==> resp.nonce == "" && v'.nonce == v.nonce && v'.nonceExp == v.nonceExp
    ensures f.cfg.nonceEnabled ==> resp.nonce == v'.nonce && now <= v'.nonceExp
    ensures f.cfg.nonceEnabled && Trim(r.token.cnfJkt) != "" ==>
      v'.nonce == (if Trim(ns.rotated) == "" then ns.last else ns.rotated) && v'.nonceExp == now + f.cfg.nonceTtl
    ensures f.cfg.nonceEnabled && Trim(r.token.cnfJkt) == "" && Trim(v.nonce) != "" && now <= v.nonceExp ==>
      v'.nonce == v.nonce && v'.nonceExp == v.nonceExp
  {
    hide ClientFault, ProofFault, ProofReplayFault, HolderFault, DecisionFault, DecisionFor, RateFault, ReplayFault,
      LimitRequest, RequiredNonce, CacheTouched, Consulted, Trim, DenyCode;
  }

  /** The status of a denial after authentication says which gate refused, the gates being asked in this order. */
  lemma DeniedWith(f: Fixed, v: View, r: Request, now: int, ns: Nonces, v': View, resp: Response)
    requires Checks(f, v, r, now, ns, v', resp) && Authenticated(f, v, r, now, ns)
    ensures
      var d := Decide(f.policy, Judged(r, f.cfg.env));
      && (!d.allowed ==> resp == Deny(403))
      && (d.allowed && !ScopesAdmitted(f.cfg.requiredScopes + d.requiredScopes, r.token.claims.scopes) ==>
            resp == Deny(if r.token.claims.scopes == [] then 401 else 403))
      && (d.allowed && ScopesAdmitted(f.cfg.requiredScopes + d.requiredScopes, r.token.claims.scopes) ==>
            && (!LimitAdmitted(v, d, r, now) ==>
                  var known := Trim(LimitIdentity(d.rateLimit.value.identityBy, r.token.claims, r.identity)) != "";
                  resp == Deny(if known then 429 else 401))
            && (LimitAdmitted(v, d, r, now) && Trim(r.token.claims.jwtId) == "" ==> resp == Deny(401))
            && (LimitAdmitted(v, d, r, now) && Held(v.tokens.mem, f.tokenTtl, r.token.claims.jwtId, now) ==>
                  resp == Deny(if Trim(r.token.claims.jwtId) == "" then 401 else 403)))
  {
    hide FaultBeforePolicy, Authenticated, DecisionFault, DecisionFor, Decide, ScopesAdmitted, RateFault, LimitAdmitted,
      LimitRequest, ReplayFault, Held, Trim, CacheTouched, Consulted, NonceAfter, FaultBeforeProofs, Judged,
      LimitIdentity;
    var d := Decide(f.policy, Judged(r, f.cfg.env));
    AuthenticatedMeans(f, v, r, now, ns);
    JudgedMeans(f.policy, r, f.cfg.env);
    StatusOfDenial(f.policy, Judged(r, f.cfg.env));
    DecisionMeans(f.cfg.requiredScopes, d, r);
    LimitMeans(v, d, r, now);
    ReplayMeans(v.tokens.mem, f.tokenTtl, r.token.claims.jwtId, now);
  }

  lemma StatusOfDenial(p: PolicyValue, s: Subject)
    ensures !Decide(p, s).allowed ==> Decide(p, s).status == 403
  {
    AllowedIff(p, s);
  }

  /** The status of a denial before the policy: that of the first check that fails, as the wire shows it. */
  lemma Unauthenticated(f: Fixed, v: View, r: Request, now: int, ns: Nonces, v': View, resp: Response)
    requires Checks(f, v, r, now, ns, v', resp)
    ensures !f.cfg.configured ==> resp == Deny(401)
    ensures f.cfg.configured && r.identityFault.Some? ==> resp == Deny(OnWire(r.identityFault.value))
    ensures f.cfg.configured && r.identityFault.None? && r.revocationFault.Some? ==>
      resp == Deny(OnWire(r.revocationFault.value))
    ensures f.cfg.configured && r.identityFault.None? && r.revocationFault.None? && r.tokenFault.Some? ==>
      resp == Deny(OnWire(r.tokenFault.value))
    ensures ClientAdmitted(f.cfg, r.(bindingFault := None)) && Trim(r.token.cnfX5t) != "" && r.bindingFault.Some? ==>
      resp == Deny(OnWire(r.bindingFault.value))
    ensures ClientAdmitted(f.cfg, r) && ProofAdmitted(f.cfg, r, now, AskedNonce(f.cfg, v, now, ns)) ==>
      && (!ProofUnseen(f, v, r, now) ==> resp == Deny(403))
      && (ProofUnseen(f, v, r, now) && !HolderAdmitted(r) ==> resp == Deny(OnWire(r.keyFault.value)))
  {
    hide ProofFault, ProofAdmitted, AskedNonce, RequiredNonce, ProofUnseen, ProofReplayFault, Trim,
      DecisionFault, DecisionFor, RateFault, LimitRequest, ReplayFault, CacheTouched, Consulted, NonceAfter;
    ClientMeans(f.cfg, r);
    ProofMeans(f, v, r, now, ns);
    ProofReplayMeans(f, v, r, now);
    HolderMeans(r);
  }

  /** Forbidden and too many requests are shown as they are, everything else as unauthorized. */
  function OnWire(status: int): (code: int)
    ensures code in {401, 403, 429} && (status in {403, 429} <==> code == status && code != 401)
  {
    if status == 403 then 403 else if status == 429 then 429 else 401
  }

  // ---------- the scopes of the policy as written ----------

  /** A scope that the server, the global rule or the rule that grants asks for. */
  ghost predicate Wanted(server: seq<string>, written: PolicyValue, s: Subject, y: string) {
    Configured(server, y) || AskedFor(written, s, y)
  }

  ghost predicate AskedFor(written: PolicyValue, s: Subject, y: string) {
    || (written.global.Some? && Configured(written.global.value.conditions.requiredScopes, y))
    || exists i: nat :: i < |written.rules| && GrantsAt(written, s, i)
                        && Configured(written.rules[i].conditions.requiredScopes, y)
  }

  /** The rule that grants is the one that decides. */
  lemma GranterDecides(written: PolicyValue, s: Subject, i: nat)
    requires i < |written.rules| && GrantsAt(written, s, i)
    ensures FirstDeciding(NormalizePolicy(written), NormalizePolicy(written).rules, s)
      == Some(NormalizeRule(written.rules[i]))
  {
    hide NormalizePolicy, NormalizeRule, GrantsAt, Matches, Satisfied, Denies, Ends;
    LoadedRules(written);
    LoadedGrants(written, s, i);
    var p := NormalizePolicy(written);
    var k := FirstDecidingAt(p, p.rules, s);
    assert Decides(p, p.rules[i], s);
    assert k == i;
  }

  lemma NobodyDecides(written: PolicyValue, s: Subject)
    requires Decide(NormalizePolicy(written), s).allowed
    requires forall i: nat :: i < |written.rules| ==> !GrantsAt(written, s, i)
    ensures FirstDeciding(NormalizePolicy(written), NormalizePolicy(written).rules, s) == None
  {
    hide NormalizePolicy, NormalizeRule, GrantsAt;
    LoadedRules(written);
    var p := NormalizePolicy(written);
    forall i: nat | i < |p.rules| ensures !Grants(p, s, i) {
      LoadedGrants(written, s, i);
    }
    NoneGranted(p, s);
  }

  /** The scopes of a decision that allows are exactly those asked for. */
  lemma ScopesAsWritten(written: PolicyValue, s: Subject, y: string)
    requires Decide(NormalizePolicy(written), s).allowed
    ensures Configured(Decide(NormalizePolicy(written), s).requiredScopes, y) <==> AskedFor(written, s, y)
    ensures Decide(NormalizePolicy(written), s).requiredScopes == [] <==> forall x :: !AskedFor(written, s, x)
  {
    hide NormalizePolicy, NormalizeRule, GrantsAt, Decide, Configured, FirstDeciding;
    var decider := Decider(written, s);
    Scopes.DecisionScopes(written, s, decider, y);
    Scopes.NothingAsked(written, s, decider);
    forall x ensures AskedFor(written, s, x) <==> Scopes.Asked(written, decider, x) {
      AskedOfDecider(written, s, decider, x);
    }
  }

  lemma Decider(written: PolicyValue, s: Subject) returns (decider: Option<PolicyRule>)
    requires Decide(NormalizePolicy(written), s).allowed
    ensures FirstDeciding(NormalizePolicy(written), NormalizePolicy(written).rules, s)
      == if decider.None? then None else Some(NormalizeRule(decider.value))
    ensures decider.None? ==> forall i: nat :: i < |written.rules| ==> !GrantsAt(written, s, i)
    ensures decider.Some? ==> exists i: nat ::
      i < |written.rules| && GrantsAt(written, s, i) && written.rules[i] == decider.value
  {
    hide NormalizePolicy, NormalizeRule, GrantsAt, Decide, FirstDeciding;
    if i: nat :| i < |written.rules| && GrantsAt(written, s, i) {
      GranterDecides(written, s, i);
      decider := Some(written.rules[i]);
    } else {
      NobodyDecides(written, s);
      decider := None;
    }
  }

  lemma OneGranter(written: PolicyValue, s: Subject, i: nat, k: nat)
    requires i < |written.rules| && k < |written.rules| && GrantsAt(written, s, i) && GrantsAt(written, s, k)
    ensures i == k
  {
    hide Fits, MetBy, DenyRule;
    assert Ends(written, s, i) && Ends(written, s, k);
  }

  lemma AskedOfDecider(written: PolicyValue, s: Subject, decider: Option<PolicyRule>, x: string)
    requires decider.None? ==> forall i: nat :: i < |written.rules| ==> !GrantsAt(written, s, i)
    requires decider.Some? ==> exists i: nat ::
      i < |written.rules| && GrantsAt(written, s, i) && written.rules[i] == decider.value
    ensures AskedFor(written, s, x) <==> Scopes.Asked(written, decider, x)
  {
    hide GrantsAt, Configured;
    if decider.Some? {
      var i: nat :| i < |written.rules| && GrantsAt(written, s, i) && written.rules[i] == decider.value;
      forall k: nat | k < |written.rules| && GrantsAt(written, s, k) ensures k == i {
        OneGranter(written, s, i, k);
      }
    }
  }

  /** Nothing is wanted, or the token has scopes and everything wanted is among them. */
  ghost predicate ScopesHeld(server: seq<string>, written: PolicyValue, s: Subject, held: seq<string>) {
    || (server == [] && forall y :: !AskedFor(written, s, y))
    || (held != [] && forall y :: Wanted(server, written, s, y) ==> Configured(held, y))
  }

  lemma ScopesAdmittedMeans(server: seq<string>, written: PolicyValue, s: Subject, held: seq<string>)
    requires Decide(NormalizePolicy(written), s).allowed
    ensures ScopesAdmitted(server + Decide(NormalizePolicy(written), s).requiredScopes, held) <==>
      ScopesHeld(server, written, s, held)
  {
    hide NormalizePolicy, Decide, Configured, AskedFor;
    var scopes := Decide(NormalizePolicy(written), s).requiredScopes;
    ScopesAsWritten(written, s, "");
    forall y ensures Configured(server + scopes, y) <==> Wanted(server, written, s, y) {
      Scopes.ConfiguredConcat(server, scopes, y);
      ScopesAsWritten(written, s, y);
    }
  }

  /**
   An allowed token has the scopes that the server, the global rule and the granting rule ask for; a request that is
   authenticated, allowed by the policy and lacks one is denied, as unauthorized when its token has no scopes at all
   and as forbidden otherwise.
   */
  lemma AllowedHasScopes(
    f: Fixed, written: PolicyValue, v: View, r: Request, now: int, ns: Nonces, v': View, resp: Response)
    requires Checks(f, v, r, now, ns, v', resp) && f.policy == NormalizePolicy(written)
    ensures resp.Allow? ==> ScopesHeld(f.cfg.requiredScopes, written, Judged(r, f.cfg.env), r.token.claims.scopes)
    ensures
      && Authenticated(f, v, r, now, ns) && Decide(f.policy, Judged(r, f.cfg.env)).allowed
      && !ScopesHeld(f.cfg.requiredScopes, written, Judged(r, f.cfg.env), r.token.claims.scopes)
      ==> resp == Deny(if r.token.claims.scopes == [] then 401 else 403)
  {
    hide Checks, Authenticated, Decide, ScopesAdmitted, ScopesHeld, LimitAdmitted, Held, Trim, Judged, NormalizePolicy,
      LimitIdentity;
    AllowedExactly(f, v, r, now, ns, v', resp);
    if Decide(f.policy, Judged(r, f.cfg.env)).allowed {
      ScopesAdmittedMeans(f.cfg.requiredScopes, written, Judged(r, f.cfg.env), r.token.claims.scopes);
    }
    if Authenticated(f, v, r, now, ns) {
      DeniedWith(f, v, r, now, ns, v', resp);
    }
  }
}
