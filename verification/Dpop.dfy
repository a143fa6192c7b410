/**
 DPoP proofs: the order of the checks on a proof, its validity window and the server nonce. Times are integer
 nanoseconds.
 */
module Dpop {
  import opened Text

  const SECOND: int := 1_000_000_000
  const DEFAULT_MAX_AGE: int := 120 * SECOND
  const DEFAULT_CLOCK_SKEW: int := 2 * SECOND
  const UNAUTHORIZED: int := 401
  const FORBIDDEN: int := 403

  /**
   A decoded proof. The checks that need cryptography, URL parsing or JSON have their outcome as a status:
   the form of the proof with `htm` and `htu`, its key against the token, and the access-token hash.
   */
  datatype Proof = Proof(
    jti: string, iat: Option<int>, nonce: string,
    formFault: Option<int>, keyFault: Option<int>, hashFault: Option<int>)

  // ---------- validation ----------

  function EffectiveMaxAge(maxAge: int): (a: int)
    ensures a > 0 && (maxAge > 0 ==> a == maxAge) && (maxAge <= 0 ==> a == DEFAULT_MAX_AGE)
  {
    if maxAge <= 0 then DEFAULT_MAX_AGE else maxAge
  }

  function EffectiveSkew(skew: int): (k: int)
    ensures 0 <= k <= DEFAULT_CLOCK_SKEW
    ensures 0 <= skew <= DEFAULT_CLOCK_SKEW ==> k == skew
    ensures (skew < 0 ==> k == 0) && (skew > DEFAULT_CLOCK_SKEW ==> k == DEFAULT_CLOCK_SKEW)
  {
    if skew < 0 then 0 else if skew > DEFAULT_CLOCK_SKEW then DEFAULT_CLOCK_SKEW else skew
  }

  /** `validateDPoPIAT` */
  function IatFault(iat: Option<int>, now: int, maxAge: int, skew: int): Option<int> {
    if iat.None? then Some(UNAUTHORIZED)
    else if iat.value > now + skew then Some(UNAUTHORIZED)
    else if now - iat.value > maxAge then Some(UNAUTHORIZED)
    else None
  }

  function NonceFault(actual: string, required: string): Option<int> {
    if IsBlank(required) then None
    else if IsBlank(actual) then Some(UNAUTHORIZED)
    else if !EqualFold(Trim(actual), Trim(required)) then Some(FORBIDDEN)
    else None
  }

  /** The first of two faults. */
  function Or(a: Option<int>, b: Option<int>): Option<int> {
    if a.Some? then a else b
  }

  /** `ValidateDPoPBinding`: the status of the first check that fails, in the order of the checks. */
  function ProofFault(p: Proof, now: int, maxAge: int, skew: int, requiredNonce: string): Option<int> {
    Or(p.formFault,
       Or(if IsBlank(p.jti) then Some(UNAUTHORIZED) else None,
          Or(p.keyFault,
             Or(IatFault(p.iat, now, EffectiveMaxAge(maxAge), EffectiveSkew(skew)),
                Or(NonceFault(p.nonce, requiredNonce), p.hashFault)))))
  }

  /** The nonce of the proof is the one that is asked for, if any is. */
  ghost predicate NonceFits(actual: string, required: string) {
    Trim(required) == "" || (Trim(actual) != "" && Lower(Trim(actual)) == Lower(Trim(required)))
  }

  /**
   A proof is accepted exactly when it is well formed, has an identifier, is of the right key and token, was issued
   no longer ago than the maximal age and no further ahead than the skew, and answers the nonce.
   */
  lemma ProofAccepted(p: Proof, now: int, maxAge: int, skew: int, required: string)
    ensures ProofFault(p, now, maxAge, skew, required).None? <==>
      && p.formFault.None? && p.keyFault.None? && p.hashFault.None? && Trim(p.jti) != ""
      && p.iat.Some? && now - EffectiveMaxAge(maxAge) <= p.iat.value <= now + EffectiveSkew(skew)
      && NonceFits(p.nonce, required)
  {
    hide Trim, Lower, EffectiveMaxAge, EffectiveSkew;
  }

  /**
   A proof that is well formed and of the right key is refused as forbidden only for another nonce, and as
   unauthorized for a bad time or a missing nonce.
   */
  lemma ProofRefused(p: Proof, now: int, maxAge: int, skew: int, required: string)
    requires p.formFault.None? && p.keyFault.None? && p.hashFault.None?
    ensures ProofFault(p, now, maxAge, skew, required) == Some(FORBIDDEN) <==>
      && Trim(p.jti) != "" && p.iat.Some?
      && now - EffectiveMaxAge(maxAge) <= p.iat.value <= now + EffectiveSkew(skew)
      && Trim(p.nonce) != "" && !NonceFits(p.nonce, required)
    ensures ProofFault(p, now, maxAge, skew, required) in {None, Some(UNAUTHORIZED), Some(FORBIDDEN)}
  {
    hide Trim, Lower, EffectiveMaxAge, EffectiveSkew;
  }

  /** A valid proof is within its window, which is no longer than the maximal age and the skew together. */
  lemma ValidWindow(p: Proof, now: int, later: int, maxAge: int, skew: int, nonce: string, laterNonce: string)
    requires ProofFault(p, now, maxAge, skew, nonce) == None
    requires ProofFault(p, later, maxAge, skew, laterNonce) == None
    ensures later - now <= EffectiveMaxAge(maxAge) + EffectiveSkew(skew)
    ensures !IsBlank(p.jti)
  {}

  /** `currentDPoPNonce`: a new nonce when there is none or it has expired. */
  function CurrentNonce(nonce: string, exp: int, now: int, ttl: int, fresh_: string): (string, int) {
    if IsBlank(nonce) || now > exp then (fresh_, now + ttl) else (nonce, exp)
  }

  /** With the default settings a cache of five minutes covers the window and nearly three minutes of delay. */
  lemma DefaultsCover(delay: int)
    requires delay <= 178 * SECOND
    ensures 300 * SECOND >= EffectiveMaxAge(DEFAULT_MAX_AGE) + EffectiveSkew(DEFAULT_CLOCK_SKEW) + delay
  {}
}
