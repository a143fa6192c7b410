/**
 The authorization pipeline: the gates that `Check` passes a request through, in their order, and which of the
 stateful stores (nonce, proof cache, rate limiter, token replay cache) each request reaches and changes.
 One clock reading serves a whole request.
 */
module Server {
  import opened Text
  import opened MemoryReplay
  import opened Conditions
  import opened Policy
  import opened Scopes
  import RateLimit
  import Dpop

  const UNAUTHORIZED: int := 401
  const INTERNAL_ERROR: int := 500
  const TOO_MANY: int := 429

  /** A verified access token: its claims and its confirmation members. */
  datatype Token = Token(claims: TokenClaims, cnfX5t: string, cnfJkt: string, hasJwk: bool)

  /**
   A request. Parsing the certificate header, asking for revocation, verifying the token and comparing
   thumbprints or signatures are library work: their outcomes are a value or a status.
   */
  datatype Request = Request(
    method_: string,
    path: string,
    identity: ClientIdentity,
    identityFault: Option<int>,
    revocationFault: Option<int>,
    token: Token,
    tokenFault: Option<int>,
    bindingFault: Option<int>,
    proof: Dpop.Proof,
    keyFault: Option<int>)

  datatype Response = Allow(user: string, certSubject: string, nonce: string) | Deny(code: int)

  /** The settings that the pipeline reads. */
  datatype Config = Config(
    configured: bool, requiredScopes: seq<string>, nonceEnabled: bool, nonceTtl: int, maxAge: int, skew: int, env: Env)

  /** The status code that `deny` puts on the wire. */
  function DenyCode(status: int): int {
    if status == FORBIDDEN || status == TOO_MANY then status else UNAUTHORIZED
  }

  // ---------- the gates, in order ----------

  /** Configuration, certificate, revocation, token and certificate binding. */
  function ClientFault(cfg: Config, r: Request): Option<int> {
    if !cfg.configured then Some(UNAUTHORIZED)
    else
      Dpop.Or(r.identityFault,
        Dpop.Or(r.revocationFault,
          Dpop.Or(r.tokenFault, if IsBlank(r.token.cnfX5t) then None else r.bindingFault)))
  }

  predicate NeedsProof(r: Request) {
    !IsBlank(r.token.cnfJkt)
  }

  /** The proof is valid; `required` is the nonce that the server asks for. */
  function ProofFault(cfg: Config, r: Request, now: int, required: string): Option<int> {
    if NeedsProof(r) then Dpop.ProofFault(r.proof, now, cfg.maxAge, cfg.skew, required) else None
  }

  /** The identifier is one that the cache holds. */
  function ReplayFault(m: Mem, ttl: int, jti: string, now: int): Option<int> {
    if IsBlank(jti) then Some(UNAUTHORIZED)
    else if Trim(jti) in Purged(m, ttl, now).items then Some(FORBIDDEN)
    else None
  }

  function ProofReplayFault(m: Mem, ttl: int, r: Request, now: int): Option<int> {
    if NeedsProof(r) && !IsBlank(r.proof.jti) then ReplayFault(m, ttl, r.proof.jti, now) else None
  }

  function HolderFault(r: Request): Option<int> {
    if IsBlank(r.token.cnfJkt) && r.token.hasJwk then r.keyFault else None
  }

  function DecisionFor(p: PolicyValue, r: Request, env: Env): PolicyDecision {
    var m, path := Upper(Trim(Trim(r.method_))), NormalizePolicyPath(Trim(r.path));
    Decide(p, Subject(m, path, Some(r.token.claims), Some(r.identity), env))
  }

  ghost function ScopeFault(required: seq<string>, tokenScopes: seq<string>): Option<int> {
    if required == [] || (tokenScopes != [] && Covers(tokenScopes, required)) then None
    else if tokenScopes == [] then Some(UNAUTHORIZED)
    else Some(FORBIDDEN)
  }

  /** The policy allows, and the token has the scopes of the server and of the decision. */
  ghost function DecisionFault(server: seq<string>, d: PolicyDecision, r: Request): Option<int> {
    Dpop.Or(if d.allowed then None else Some(d.status), ScopeFault(server + d.requiredScopes, r.token.claims.scopes))
  }

  /** `rateLimitIdentity` */
  function LimitIdentity(mode: string, claims: TokenClaims, identity: ClientIdentity): string {
    var m, subject := Lower(Trim(mode)), Trim(claims.subject);
    var cert, thumb := Trim(identity.subject), Trim(identity.thumbprint);
    if m == "cert_subject" && cert != "" then "cert_subject:" + cert
    else if m == "cert_thumbprint" && thumb != "" then "cert_thumbprint:" + thumb
    else if subject != "" then "token_subject:" + subject
    else if cert != "" then "cert_subject:" + cert
    else ""
  }

  lemma KindsDiffer(a: string, b: string)
    ensures "cert_subject:" + a != "cert_thumbprint:" + b
    ensures "cert_subject:" + a != "token_subject:" + b
    ensures "cert_thumbprint:" + a != "token_subject:" + b
  {
    assert ("cert_subject:" + a)[5] != ("cert_thumbprint:" + b)[5];
    assert ("token_subject:" + b)[0] == 't';
  }

  /** Two callers count against one limit only if they share a token subject, a certificate subject or a thumbprint. */
  lemma SharedLimit(mode: string, c: TokenClaims, i: ClientIdentity, mode': string, c': TokenClaims, i': ClientIdentity)
    requires LimitIdentity(mode, c, i) == LimitIdentity(mode', c', i') != ""
    ensures
      || Trim(c.subject) == Trim(c'.subject) != ""
      || Trim(i.subject) == Trim(i'.subject) != ""
      || Trim(i.thumbprint) == Trim(i'.thumbprint) != ""
  {
    hide Trim, Lower;
    var s := [Trim(c.subject), Trim(i.subject), Trim(i.thumbprint)];
    var t := [Trim(c'.subject), Trim(i'.subject), Trim(i'.thumbprint)];
    forall a, b | a in s && b in t
      ensures "cert_subject:" + a != "cert_thumbprint:" + b && "cert_thumbprint:" + a != "cert_subject:" + b
      ensures "cert_subject:" + a != "token_subject:" + b && "token_subject:" + a != "cert_subject:" + b
      ensures "cert_thumbprint:" + a != "token_subject:" + b && "token_subject:" + a != "cert_thumbprint:" + b
    {
      KindsDiffer(a, b);
      KindsDiffer(b, a);
    }
    forall p, a, b | p in {"cert_subject:", "cert_thumbprint:", "token_subject:"} && a in s && b in t && p + a == p + b
      ensures a == b
    {
      CommonPrefix(p, a, b);
    }
  }

  /** The request that the rate limiter is asked about, if any. */
  function LimitRequest(d: PolicyDecision, r: Request, now: int): Option<RateLimit.Request> {
    match d.rateLimit
    case None => None
    case Some(limit) =>
      var identity := LimitIdentity(limit.identityBy, r.token.claims, r.identity);
      Some(RateLimit.Request(identity, limit.maxRequests, limit.window, now))
  }

  function RateFault(table: map<string, RateLimit.Bucket>, q: Option<RateLimit.Request>): Option<int> {
    if q.None? then None
    else if IsBlank(q.value.identity) then Some(UNAUTHORIZED)
    else if RateLimit.Answer(table, q.value).1 then None
    else Some(TOO_MANY)
  }

  // ---------- the whole state ----------

  /** The stores that `Check` uses. */
  datatype View = View(
    nonce: string, nonceExp: int, proofs: History, limits: map<string, RateLimit.Bucket>, tokens: History)

  /** The cache settings and the policy, which no request changes. */
  datatype Fixed = Fixed(cfg: Config, policy: PolicyValue, proofTtl: int, proofMax: int, tokenTtl: int, tokenMax: int)

  /** New nonces, for the places where the server may have to make one. */
  datatype Nonces = Nonces(first: string, rotated: string, last: string)

  function FirstNonce(f: Fixed, v: View, r: Request, now: int, ns: Nonces): (string, int) {
    if f.cfg.nonceEnabled && NeedsProof(r) then Dpop.CurrentNonce(v.nonce, v.nonceExp, now, f.cfg.nonceTtl, ns.first)
    else (v.nonce, v.nonceExp)
  }

  function RequiredNonce(f: Fixed, v: View, r: Request, now: int, ns: Nonces): string {
    if f.cfg.nonceEnabled then FirstNonce(f, v, r, now, ns).0 else ""
  }

  /** The gates up to and including the validity of the proof. */
  function FaultBeforeProofs(f: Fixed, v: View, r: Request, now: int, ns: Nonces): Option<int> {
    Dpop.Or(ClientFault(f.cfg, r), ProofFault(f.cfg, r, now, RequiredNonce(f, v, r, now, ns)))
  }

  /** ... then the proof cache and the holder of key, */
  function FaultBeforePolicy(f: Fixed, v: View, r: Request, now: int, ns: Nonces): Option<int> {
    Dpop.Or(FaultBeforeProofs(f, v, r, now, ns),
      Dpop.Or(ProofReplayFault(v.proofs.mem, f.proofTtl, r, now), HolderFault(r)))
  }

  /** ... then the policy and the scopes, */
  ghost function FaultBeforeLimits(f: Fixed, v: View, r: Request, now: int, ns: Nonces): Option<int> {
    Dpop.Or(FaultBeforePolicy(f, v, r, now, ns),
      DecisionFault(f.cfg.requiredScopes, DecisionFor(f.policy, r, f.cfg.env), r))
  }

  function LimitOf(f: Fixed, r: Request, now: int): Option<RateLimit.Request> {
    LimitRequest(DecisionFor(f.policy, r, f.cfg.env), r, now)
  }

  /** ... then the rate limiter, */
  ghost function FaultBeforeTokens(f: Fixed, v: View, r: Request, now: int, ns: Nonces): Option<int> {
    Dpop.Or(FaultBeforeLimits(f, v, r, now, ns), RateFault(v.limits, LimitOf(f, r, now)))
  }

  /** ... and the token replay cache last. */
  ghost function Fault(f: Fixed, v: View, r: Request, now: int, ns: Nonces): Option<int> {
    Dpop.Or(FaultBeforeTokens(f, v, r, now, ns), ReplayFault(v.tokens.mem, f.tokenTtl, r.token.claims.jwtId, now))
  }

  // ---------- one request ----------

  /** The nonce and its expiry after the gates: made when the proof is looked at, and replaced once it is valid. */
  function NonceAfterGates(f: Fixed, v: View, r: Request, now: int, ns: Nonces): (string, int) {
    if !f.cfg.nonceEnabled || ClientFault(f.cfg, r).Some? then (v.nonce, v.nonceExp)
    else if !NeedsProof(r) || FaultBeforeProofs(f, v, r, now, ns).Some? then FirstNonce(f, v, r, now, ns)
    else (ns.rotated, now + f.cfg.nonceTtl)
  }

  /** An allowed client is told the nonce, which is made anew if it has expired. */
  function NonceAfter(f: Fixed, v: View, r: Request, now: int, ns: Nonces, allowed: bool): (string, int) {
    var kept := NonceAfterGates(f, v, r, now, ns);
    if allowed && f.cfg.nonceEnabled then Dpop.CurrentNonce(kept.0, kept.1, now, f.cfg.nonceTtl, ns.last) else kept
  }

  /** A cache that a request reaches takes one step; one that it does not reach stays as it is. */
  ghost predicate CacheTouched(reached: bool, h: History, ttl: int, max: int, jti: string, now: int, h': History) {
    if reached && !IsBlank(jti) then exists o :: Steps(h, ttl, max, Trim(jti), now, h', o) else h' == h
  }

  /**
   What one `Check` does: the answer is that of the first gate that fails, and a store changes only if its gate is
   reached.
   */
  ghost predicate Checks(f: Fixed, v: View, r: Request, now: int, ns: Nonces, v': View, resp: Response) {
    && (match Fault(f, v, r, now, ns)
        case Some(status) => resp == Deny(DenyCode(status))
        case None => resp.Allow? && resp.user == r.token.claims.subject && resp.certSubject == r.identity.subject
                     && resp.nonce == (if f.cfg.nonceEnabled then v'.nonce else ""))
    && (v'.nonce, v'.nonceExp) == NonceAfter(f, v, r, now, ns, resp.Allow?)
    && CacheTouched(FaultBeforeProofs(f, v, r, now, ns).None? && NeedsProof(r),
                    v.proofs, f.proofTtl, f.proofMax, r.proof.jti, now, v'.proofs)
    && v'.limits == Consulted(FaultBeforeLimits(f, v, r, now, ns).None?, v.limits, LimitOf(f, r, now))
    && CacheTouched(FaultBeforeTokens(f, v, r, now, ns).None?,
                    v.tokens, f.tokenTtl, f.tokenMax, r.token.claims.jwtId, now, v'.tokens)
  }

  function Consulted(
    reached: bool, table: map<string, RateLimit.Bucket>, q: Option<RateLimit.Request>): map<string, RateLimit.Bucket>
  {
    if reached && q.Some? && !IsBlank(q.value.identity) then RateLimit.Answer(table, q.value).0 else table
  }

  class AuthzServer {
    const cfg: Config
    const policy: PolicyConfig?
    const replayCache: ReplayCache
    const dpopProofCache: ReplayCache
    const rateLimiter: RateLimit.RateLimiter
    var dpopNonce: string
    var dpopNonceExp: int

    ghost predicate Valid()
      reads this, replayCache, dpopProofCache
    {
      replayCache != dpopProofCache && replayCache.Valid() && dpopProofCache.Valid()
    }

    ghost function Stores(): View
      reads this, replayCache, dpopProofCache, rateLimiter
    {
      View(dpopNonce, dpopNonceExp, dpopProofCache.Past(), rateLimiter.state, replayCache.Past())
    }

    ghost function Settings(): Fixed
      reads this, policy
    {
      Fixed(cfg, if policy == null then AllowPolicy() else policy.Contents(),
            dpopProofCache.ttl, dpopProofCache.max, replayCache.ttl, replayCache.max)
    }

    constructor (
      cfg: Config, policy: PolicyConfig?, replayCache: ReplayCache, proofCache: ReplayCache,
      rateLimiter: RateLimit.RateLimiter)
      requires replayCache != proofCache && replayCache.Valid() && proofCache.Valid()
      ensures Valid() && this.cfg == cfg && this.policy == policy && this.rateLimiter == rateLimiter
      ensures this.replayCache == replayCache && this.dpopProofCache == proofCache
    {
      this.cfg, this.policy, this.rateLimiter := cfg, policy, rateLimiter;
      this.replayCache, this.dpopProofCache := replayCache, proofCache;
      dpopNonce, dpopNonceExp := "", 0;
    }

    method CurrentNonce(now: int, fresh_: string) returns (nonce: string)
      modifies this
      ensures (dpopNonce, dpopNonceExp) ==
        if cfg.nonceEnabled then Dpop.CurrentNonce(old(dpopNonce), old(dpopNonceExp), now, cfg.nonceTtl, fresh_)
        else (old(dpopNonce), old(dpopNonceExp))
      ensures nonce == if cfg.nonceEnabled then dpopNonce else ""
    {
      if !cfg.nonceEnabled {
        return "";
      }
      if Trim(dpopNonce) == "" || now > dpopNonceExp {
        dpopNonce, dpopNonceExp := fresh_, now + cfg.nonceTtl;
      }
      return dpopNonce;
    }

    method RotateNonce(now: int, fresh_: string)
      modifies this
      ensures dpopNonce == fresh_ && dpopNonceExp == now + cfg.nonceTtl
    {
      dpopNonce, dpopNonceExp := fresh_, now + cfg.nonceTtl;
    }

    /** The checks on the client that touch no store. */
    method CheckClient(r: Request) returns (fault: Option<int>)
      ensures fault == ClientFault(cfg, r)
    {
      if !cfg.configured {
        return Some(UNAUTHORIZED);
      }
      if r.identityFault.Some? {
        return r.identityFault;
      }
      if r.revocationFault.Some? {
        return r.revocationFault;
      }
      if r.tokenFault.Some? {
        return r.tokenFault;
      }
      if Trim(r.token.cnfX5t) != "" && r.bindingFault.Some? {
        return r.bindingFault;
      }
      return None;
    }

    /** The DPoP stage: nonce, validation, rotation, and the mark in the proof cache. */
    method CheckProof(r: Request, now: int, ns: Nonces) returns (fault: Option<int>)
      requires Valid() && dpopProofCache.clock <= now && ClientFault(cfg, r).None?
      modifies this, dpopProofCache
      ensures Valid()
      ensures fault == Dpop.Or(
        old(FaultBeforeProofs(Settings(), Stores(), r, now, ns)),
        old(ProofReplayFault(Stores().proofs.mem, dpopProofCache.ttl, r, now)))
      ensures (dpopNonce, dpopNonceExp) == old(NonceAfterGates(Settings(), Stores(), r, now, ns))
      ensures CacheTouched(old(FaultBeforeProofs(Settings(), Stores(), r, now, ns)).None? && NeedsProof(r),
        old(Stores().proofs), dpopProofCache.ttl, dpopProofCache.max, r.proof.jti, now, Stores().proofs)
    {
      hide ClientFault, Dpop.ProofFault, Dpop.CurrentNonce, Steps, Purged, MemoryReplay.Inv, Trim;
      if Trim(r.token.cnfJkt) == "" {
        return None;
      }
      var required := "";
      if cfg.nonceEnabled {
        required := CurrentNonce(now, ns.first);
      }
      fault := Dpop.ProofFault(r.proof, now, cfg.maxAge, cfg.skew, required);
      if fault.Some? {
        return;
      }
      if cfg.nonceEnabled {
        RotateNonce(now, ns.rotated);
      }
      if Trim(r.proof.jti) != "" {
        fault := MarkFault(dpopProofCache, r.proof.jti, now);
      }
    }

    static method MarkFault(cache: ReplayCache, jti: string, now: int) returns (fault: Option<int>)
      requires cache.Valid() && cache.clock <= now
      modifies cache
      ensures cache.Valid()
      ensures fault == ReplayFault(old(cache.Past()).mem, cache.ttl, jti, now)
      ensures CacheTouched(true, old(cache.Past()), cache.ttl, cache.max, jti, now, cache.Past())
    {
      var result := cache.MarkIfNew(jti, now);
      match result
      case Marked => return None;
      case MissingJti => return Some(UNAUTHORIZED);
      case ReplayDetected => return Some(FORBIDDEN);
    }

    method EnforceRateLimit(d: PolicyDecision, r: Request, now: int) returns (fault: Option<int>)
      modifies rateLimiter
      ensures fault == RateFault(old(rateLimiter.state), LimitRequest(d, r, now))
      ensures rateLimiter.state == Consulted(true, old(rateLimiter.state), LimitRequest(d, r, now))
    {
      if d.rateLimit.None? {
        return None;
      }
      var limit := d.rateLimit.value;
      var identity := LimitIdentity(limit.identityBy, r.token.claims, r.identity);
      if Trim(identity) == "" {
        return Some(UNAUTHORIZED);
      }
      var allowed := rateLimiter.Allow(RateLimit.Request(identity, limit.maxRequests, limit.window, now));
      return if allowed then None else Some(TOO_MANY);
    }

    method CheckHolder(r: Request) returns (fault: Option<int>)
      ensures fault == HolderFault(r)
    {
      if Trim(r.token.cnfJkt) == "" && r.token.hasJwk {
        return r.keyFault;
      }
      return None;
    }

    /** The policy and the scopes. */
    method CheckPolicy(r: Request) returns (fault: Option<int>, d: PolicyDecision)
      ensures d == DecisionFor(Settings().policy, r, cfg.env)
      ensures fault == DecisionFault(cfg.requiredScopes, d, r)
    {
      var p := policy;
      if p == null {
        p := new PolicyConfig(AllowPolicy());
      }
      d := p.Evaluate(Trim(r.method_), Trim(r.path), Some(r.token.claims), Some(r.identity), cfg.env);
      if !d.allowed {
        return Some(d.status), d;
      }
      var scopes := ValidateScopes(r.token.claims.scopes, cfg.requiredScopes + d.requiredScopes);
      fault := match scopes
        case ScopesOk => None
        case MissingScopeClaim => Some(UNAUTHORIZED)
        case RequiredScopeMissing => Some(FORBIDDEN);
    }

    /** The gates that establish who calls: client, proof and holder of key. */
    method Authenticate(r: Request, now: int, ns: Nonces) returns (fault: Option<int>)
      requires Valid() && dpopProofCache.clock <= now
      modifies this, dpopProofCache
      ensures Valid()
      ensures fault == old(FaultBeforePolicy(Settings(), Stores(), r, now, ns))
      ensures (dpopNonce, dpopNonceExp) == old(NonceAfterGates(Settings(), Stores(), r, now, ns))
      ensures CacheTouched(old(FaultBeforeProofs(Settings(), Stores(), r, now, ns)).None? && NeedsProof(r),
        old(Stores().proofs), dpopProofCache.ttl, dpopProofCache.max, r.proof.jti, now, Stores().proofs)
    {
      hide ClientFault, ProofReplayFault, HolderFault, Steps, MemoryReplay.Inv, Dpop.CurrentNonce, Dpop.ProofFault;
      fault := CheckClient(r);
      if fault.None? {
        fault := CheckProof(r, now, ns);
      }
      if fault.None? {
        fault := CheckHolder(r);
      }
    }

    method Check(r: Request, now: int, ns: Nonces) returns (resp: Response)
      requires Valid() && replayCache.clock <= now && dpopProofCache.clock <= now
      modifies this, replayCache, dpopProofCache, rateLimiter
      ensures Valid()
      ensures Checks(Settings(), old(Stores()), r, now, ns, Stores(), resp)
    {
      hide NonceAfterGates, FaultBeforePolicy, FaultBeforeProofs, DecisionFault, RateFault, ReplayFault,
        DecisionFor, LimitRequest, Steps, RateLimit.Answer, MemoryReplay.Inv, Dpop.CurrentNonce;
      var fault := Authenticate(r, now, ns);
      if fault.Some? {
        return Deny(DenyCode(fault.value));
      }
      var d: PolicyDecision;
      fault, d := CheckPolicy(r);
      if fault.Some? {
        return Deny(DenyCode(fault.value));
      }
      fault := EnforceRateLimit(d, r, now);
      if fault.Some? {
        return Deny(DenyCode(fault.value));
      }
      fault := MarkFault(replayCache, r.token.claims.jwtId, now);
      if fault.Some? {
        return Deny(DenyCode(fault.value));
      }
      var nonce := CurrentNonce(now, ns.last);
      return Allow(r.token.claims.subject, r.identity.subject, nonce);
    }
  }
}
