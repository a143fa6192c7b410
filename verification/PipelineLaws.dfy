/**
 What holds of every request that concurrent `Check`s allow: its client, key, policy and scopes are in order, its
 proof was valid when it was looked at, and the rate limit of its decision holds over all requests together.
 */
module PipelineLaws {
  import opened Text
  import opened MemoryReplay
  import opened Policy
  import opened Server
  import opened ServerLaws
  import opened Pipeline
  import opened NonceUse
  import Dpop
  import RateLimit

  // ---------- allowed requests are authorized ----------

  predicate Refused(stage: Stage) {
    stage.Answered? && stage.resp.Deny?
  }

  /** Past the checks on the client, past those on the policy, and past the validation of the proof. */
  predicate PastClient(stage: Stage) {
    !stage.AtClient? && !Refused(stage)
  }

  predicate PastPolicy(stage: Stage) {
    stage.AtLimit? || stage.AtToken? || Pipeline.Granted(stage)
  }

  predicate PastProof(stage: Stage) {
    stage.AtRotate? || stage.AtProofMark? || stage.AtPolicy? || PastPolicy(stage)
  }

  ghost predicate WasValid(f: Fixed, clock: int, r: Request) {
    exists at: int, required: string :: at <= clock && ValidProof(f.cfg, r, at, required)
  }

  ghost predicate ValidProof(cfg: Config, r: Request, at: int, required: string) {
    Dpop.ProofFault(r.proof, at, cfg.maxAge, cfg.skew, required) == None
  }

  ghost predicate Cleared(f: Fixed, clock: int, me: Caller) {
    var r := me.request;
    && (PastClient(me.stage) ==> ClientFault(f.cfg, r) == None)
    && (PastPolicy(me.stage) ==>
          && HolderFault(r) == None
          && DecisionFault(f.cfg.requiredScopes, DecisionFor(f.policy, r, f.cfg.env), r) == None)
    && (PastProof(me.stage) && NeedsProof(r) ==> WasValid(f, clock, r))
  }

  lemma ValidatedIsValid(f: Fixed, now: int, me: Caller, required: string, stage': Stage)
    requires ValidateTurn(f, now, me, required, stage')
    ensures stage'.Answered? ==> Refused(stage')
    ensures !stage'.Answered? ==> WasValid(f, now, me.request)
  {
    hide Dpop.ProofFault, DenyCode;
    assert !stage'.Answered? ==> ValidProof(f.cfg, me.request, now, required);
  }

  lemma TurnClears(f: Fixed, now: int, v: View, me: Caller, coin: string, o: Outcome, v': View, stage': Stage)
    requires Turns(f, now, v, me, coin, o, v', stage') && Cleared(f, now, me)
    ensures Cleared(f, now, me.(stage := stage'))
  {
    hide Steps, ClientFault, HolderFault, DecisionFault, DecisionFor, RateFault, Consulted, Server.LimitOf,
      Dpop.ProofFault, Dpop.CurrentNonce, NeedsProof, IsBlank, DenyCode, WasValid, ValidateTurn;
    if me.stage.AtValidate? {
      ValidatedIsValid(f, now, me, me.stage.required, stage');
      ValidateStage(f, now, me, me.stage.required, stage');
    }
  }

  lemma ValidateStage(f: Fixed, now: int, me: Caller, required: string, stage': Stage)
    requires ValidateTurn(f, now, me, required, stage')
    ensures stage'.Answered? || stage'.AtRotate? || stage'.AtProofMark?
  {
    hide Dpop.ProofFault;
  }

  lemma StillCleared(f: Fixed, clock: int, clock': int, me: Caller)
    requires Cleared(f, clock, me) && clock <= clock'
    ensures Cleared(f, clock', me)
  {
    hide ValidProof, ClientFault, HolderFault, DecisionFault, DecisionFor, NeedsProof;
    if WasValid(f, clock, me.request) {
      var at: int, required: string :| at <= clock && ValidProof(f.cfg, me.request, at, required);
      assert WasValid(f, clock', me.request);
    }
  }

  lemma StepClears(f: Fixed, s: System, l: Label, s': System, id: nat)
    requires Next(f, s, l, s') && id in s'.callers
    requires id in s.callers ==> Cleared(f, s.clock, s.callers[id])
    requires l.Turn? && l.id in s.callers ==> Cleared(f, s.clock, s.callers[l.id])
    ensures Cleared(f, s'.clock, s'.callers[id])
  {
    hide Turns, WasValid, ClientFault, HolderFault, DecisionFault, DecisionFor, NeedsProof;
    if l.Turn? {
      TurnClears(f, s.clock, s.view, s.callers[l.id], l.coin, l.outcome, s'.view, s'.callers[l.id].stage);
    } else if l.Tick? {
      StillCleared(f, s.clock, s'.clock, s.callers[id]);
    }
  }

  lemma {:induction false} RunClears(f: Fixed, ss: seq<System>, ls: seq<Label>, n: nat, id: nat)
    requires IsInterleaving(f, ss, ls) && n <= |ls|
    ensures id in ss[n].callers ==> Cleared(f, ss[n].clock, ss[n].callers[id])
    decreases n
  {
    hide Cleared, Next;
    if n > 0 && id in ss[n].callers {
      RunClears(f, ss, ls, n - 1, id);
      if ls[n - 1].Turn? {
        RunClears(f, ss, ls, n - 1, ls[n - 1].id);
      }
      StepClears(f, ss[n - 1], ls[n - 1], ss[n], id);
    }
  }

  /**
   In every concurrent run a request that is allowed has its client and its key in order, is allowed by the policy as
   written, has the scopes that the server, the global rule and the granting rule ask for, and had a valid proof at
   some time before, if its token is bound to a key.
   */
  lemma AllowedIsAuthorized(f: Fixed, written: PolicyValue, ss: seq<System>, ls: seq<Label>, n: nat, id: nat)
    requires IsInterleaving(f, ss, ls) && n <= |ls| && id in ss[n].callers && Pipeline.Granted(ss[n].callers[id].stage)
    requires f.policy == NormalizePolicy(written)
    ensures
      var r := ss[n].callers[id].request;
      && ClientAdmitted(f.cfg, r) && HolderAdmitted(r)
      && Decide(f.policy, Judged(r, f.cfg.env)).allowed
      && ScopesHeld(f.cfg.requiredScopes, written, Judged(r, f.cfg.env), r.token.claims.scopes)
      && exists at, required :: at <= ss[n].clock && ProofAdmitted(f.cfg, r, at, required)
  {
    hide Next, Init, Cleared, Decide, ClientAdmitted, HolderAdmitted, ScopesHeld, ProofAdmitted, Judged,
      NormalizePolicy;
    RunClears(f, ss, ls, n, id);
    ClearedMeans(f, written, ss[n].clock, ss[n].callers[id]);
  }

  lemma ClearedMeans(f: Fixed, written: PolicyValue, clock: int, me: Caller)
    requires Cleared(f, clock, me) && Pipeline.Granted(me.stage) && f.policy == NormalizePolicy(written)
    ensures
      var r := me.request;
      && ClientAdmitted(f.cfg, r) && HolderAdmitted(r)
      && Decide(f.policy, Judged(r, f.cfg.env)).allowed
      && ScopesHeld(f.cfg.requiredScopes, written, Judged(r, f.cfg.env), r.token.claims.scopes)
      && exists at, required :: at <= clock && ProofAdmitted(f.cfg, r, at, required)
  {
    hide ClientFault, HolderFault, DecisionFault, DecisionFor, Decide, ClientAdmitted, HolderAdmitted,
      ScopesHeld, ScopesAdmitted, ProofAdmitted, Judged, NeedsProof, NormalizePolicy, WasValid;
    var r := me.request;
    ClientMeans(f.cfg, r);
    HolderMeans(r);
    JudgedMeans(f.policy, r, f.cfg.env);
    DecisionMeans(f.cfg.requiredScopes, Decide(f.policy, Judged(r, f.cfg.env)), r);
    ScopesAdmittedMeans(f.cfg.requiredScopes, written, Judged(r, f.cfg.env), r.token.claims.scopes);
    SomeProof(f, clock, r);
  }

  lemma SomeProof(f: Fixed, clock: int, r: Request)
    requires NeedsProof(r) ==> WasValid(f, clock, r)
    ensures exists at, required :: at <= clock && ProofAdmitted(f.cfg, r, at, required)
  {
    hide NeedsProof, ValidProof, ProofAdmitted;
    if NeedsProof(r) {
      var at: int, required: string :| at <= clock && ValidProof(f.cfg, r, at, required);
      ValidMeans(f.cfg, r, at, required);
    } else {
      NoProofAdmitted(f.cfg, r, clock, "");
    }
  }

  lemma ValidMeans(cfg: Config, r: Request, at: int, required: string)
    requires ValidProof(cfg, r, at, required)
    ensures ProofAdmitted(cfg, r, at, required)
  {
    Dpop.ProofAccepted(r.proof, at, cfg.maxAge, cfg.skew, required);
    hide Dpop.ProofFault, Trim, Dpop.EffectiveMaxAge, Dpop.EffectiveSkew, Dpop.NonceFits;
  }

  lemma NoProofAdmitted(cfg: Config, r: Request, at: int, required: string)
    requires !NeedsProof(r)
    ensures ProofAdmitted(cfg, r, at, required)
  {
    hide Trim;
  }

  /** Every proof that passes was validated within its window around the time at which it was issued. */
  lemma PassInWindow(f: Fixed, ss: seq<System>, ls: seq<Label>, n: nat, i: nat)
    requires IsInterleaving(f, ss, ls) && n <= |ls| && i < |ss[n].passes|
    ensures
      var pass := ss[n].passes[i];
      && pass.caller in ss[n].callers
      && var p := ss[n].callers[pass.caller].request.proof;
         && p.formFault.None? && p.keyFault.None? && p.hashFault.None? && Trim(p.jti) != "" && p.iat.Some?
         && pass.validatedAt - Dpop.EffectiveMaxAge(f.cfg.maxAge) <= p.iat.value
         && p.iat.value <= pass.validatedAt + Dpop.EffectiveSkew(f.cfg.skew)
  {
    ProofsRun(f, ss, ls, n);
    ProofsFacts(f, ss[n]);
    hide IsInterleaving, Proofs, Dpop.ProofFault, Trim, Dpop.EffectiveMaxAge, Dpop.EffectiveSkew, Dpop.NonceFits;
    var pass := ss[n].passes[i];
    var p := ss[n].callers[pass.caller].request.proof;
    var nonce :| Dpop.ProofFault(p, pass.validatedAt, f.cfg.maxAge, f.cfg.skew, nonce) == None;
    Dpop.ProofAccepted(p, pass.validatedAt, f.cfg.maxAge, f.cfg.skew, nonce);
  }

  // ---------- the age of the nonce ----------

  lemma ExpiryStep(f: Fixed, s: System, l: Label, s': System)
    requires Next(f, s, l, s')
    ensures s'.view.nonceExp == if Draws(f, s, l) then s.clock + f.cfg.nonceTtl else s.view.nonceExp
  {
    hide Steps, ClientFault, HolderFault, DecisionFault, DecisionFor, RateFault, Consulted, Server.LimitOf,
      Dpop.ProofFault, NeedsProof, DenyCode, OrElse, AfterClient;
  }

  /** Step `j` made the nonce, with its time to live from then on. */
  ghost predicate MadeAt(f: Fixed, ss: seq<System>, ls: seq<Label>, j: nat, nonce: string, expiry: int)
    requires |ss| == |ls| + 1
  {
    j < |ls| && Draws(f, ss[j], ls[j]) && ls[j].coin == nonce && expiry == ss[j].clock + f.cfg.nonceTtl
  }

  lemma {:induction false} NonceMade(f: Fixed, ss: seq<System>, ls: seq<Label>, n: nat)
    requires IsInterleaving(f, ss, ls) && n <= |ls|
    ensures
      || (ss[n].view.nonce == ss[0].view.nonce && ss[n].view.nonceExp == ss[0].view.nonceExp)
      || exists j: nat :: j < n && MadeAt(f, ss, ls, j, ss[n].view.nonce, ss[n].view.nonceExp)
  {
    hide Next, Draws, Init;
    if n > 0 {
      NonceMade(f, ss, ls, n - 1);
      NonceStep(f, ss[n - 1], ls[n - 1], ss[n]);
      ExpiryStep(f, ss[n - 1], ls[n - 1], ss[n]);
      assert Draws(f, ss[n - 1], ls[n - 1]) ==>
        MadeAt(f, ss, ls, n - 1, ss[n].view.nonce, ss[n].view.nonceExp);
    }
  }

  /** A nonce that a request reads is the first one, not expired, or was made no longer ago than its time to live. */
  lemma NonceIsFresh(f: Fixed, ss: seq<System>, ls: seq<Label>, id: nat, n: nat)
    requires IsInterleaving(f, ss, ls) && Reads(ss, ls, id, n) && f.cfg.nonceTtl >= 0
    ensures
      var nonce := ss[n + 1].view.nonce;
      || (nonce == ss[0].view.nonce && ss[n].clock <= ss[0].view.nonceExp)
      || exists j: nat :: j <= n && Draws(f, ss[j], ls[j]) && ls[j].coin == nonce
                          && ss[n].clock - ss[j].clock <= f.cfg.nonceTtl
  {
    NonceStep(f, ss[n], ls[n], ss[n + 1]);
    NonceMade(f, ss, ls, n);
    NotStale(f, ss[n], ls[n]);
    hide IsInterleaving, Draws;
  }

  lemma NotStale(f: Fixed, s: System, l: Label)
    requires l.Turn? && l.id in s.callers && s.callers[l.id].stage.AtNonce?
    ensures !Draws(f, s, l) ==> s.clock <= s.view.nonceExp
  {
    hide IsBlank;
  }

  // ---------- the rate limit over all requests ----------

  /** In this step a request asks the rate limiter. */
  predicate Asks(f: Fixed, s: System, l: Label) {
    && l.Turn? && l.id in s.callers && s.callers[l.id].stage.AtLimit?
    && Server.LimitOf(f, s.callers[l.id].request, s.clock).Some?
    && !IsBlank(Server.LimitOf(f, s.callers[l.id].request, s.clock).value.identity)
  }

  function Question(f: Fixed, s: System, l: Label): RateLimit.Request
    requires Asks(f, s, l)
  {
    Server.LimitOf(f, s.callers[l.id].request, s.clock).value
  }

  /** All the questions of the first `n` steps. */
  function Questions(f: Fixed, ss: seq<System>, ls: seq<Label>, n: nat): seq<RateLimit.Request>
    requires |ss| == |ls| + 1 && n <= |ls|
  {
    if n == 0 then []
    else
      var before := Questions(f, ss, ls, n - 1);
      if Asks(f, ss[n - 1], ls[n - 1]) then before + [Question(f, ss[n - 1], ls[n - 1])] else before
  }

  lemma LimitStep(f: Fixed, s: System, l: Label, s': System)
    requires Next(f, s, l, s')
    ensures s'.view.limits ==
      if Asks(f, s, l) then RateLimit.Answer(s.view.limits, Question(f, s, l)).0 else s.view.limits
    ensures Asks(f, s, l) ==>
      l.id in s'.callers &&
      (s'.callers[l.id].stage.AtToken? <==> RateLimit.Answer(s.view.limits, Question(f, s, l)).1)
  {
    hide Steps, ClientFault, HolderFault, DecisionFault, DecisionFor, Dpop.ProofFault, Dpop.CurrentNonce, NeedsProof,
      IsBlank, DenyCode, AfterClient, RateLimit.Answer, Server.LimitOf;
  }

  lemma {:induction false} LimitsAreTable(f: Fixed, ss: seq<System>, ls: seq<Label>, n: nat)
    requires IsInterleaving(f, ss, ls) && n <= |ls| && ss[0].view.limits == map[]
    ensures ss[n].view.limits == RateLimit.Table(Questions(f, ss, ls, n))
  {
    hide Next, Init, Asks, RateLimit.Answer, Question;
    if n > 0 {
      LimitsAreTable(f, ss, ls, n - 1);
      LimitStep(f, ss[n - 1], ls[n - 1], ss[n]);
      var before := Questions(f, ss, ls, n - 1);
      if Asks(f, ss[n - 1], ls[n - 1]) {
        var q := Question(f, ss[n - 1], ls[n - 1]);
        assert (before + [q])[..|before|] == before;
      }
    }
  }

  lemma ClockStep(f: Fixed, s: System, l: Label, s': System)
    requires Next(f, s, l, s')
    ensures s.clock <= s'.clock
  {
    hide Turns;
  }

  lemma {:induction false} QuestionsInOrder(f: Fixed, ss: seq<System>, ls: seq<Label>, n: nat)
    requires IsInterleaving(f, ss, ls) && n <= |ls|
    ensures RateLimit.ClockForward(Questions(f, ss, ls, n))
    ensures forall i :: 0 <= i < |Questions(f, ss, ls, n)| ==> Questions(f, ss, ls, n)[i].now <= ss[n].clock
  {
    hide Next, Init, Asks, Question;
    if n > 0 {
      QuestionsInOrder(f, ss, ls, n - 1);
      ClockStep(f, ss[n - 1], ls[n - 1], ss[n]);
      if Asks(f, ss[n - 1], ls[n - 1]) {
        QuestionTime(f, ss[n - 1], ls[n - 1]);
      }
    }
  }

  lemma QuestionTime(f: Fixed, s: System, l: Label)
    requires Asks(f, s, l)
    ensures Question(f, s, l).now == s.clock
  {
    hide DecisionFor, LimitIdentity, IsBlank;
  }

  /** In step `k` the limiter lets a request of the triple of `q` through, at a time in the interval. */
  ghost predicate LetsThrough(f: Fixed, ss: seq<System>, ls: seq<Label>, q: RateLimit.Request, from: int, k: nat)
    requires |ss| == |ls| + 1 && k < |ls|
  {
    && Asks(f, ss[k], ls[k]) && RateLimit.SameTriple(Question(f, ss[k], ls[k]), q)
    && from <= ss[k].clock < from + q.window
    && ls[k].id in ss[k + 1].callers && ss[k + 1].callers[ls[k].id].stage.AtToken?
  }

  ghost function Through(f: Fixed, ss: seq<System>, ls: seq<Label>, q: RateLimit.Request, from: int, n: nat): set<nat>
    requires |ss| == |ls| + 1 && n <= |ls|
  {
    set k: nat | k < n && LetsThrough(f, ss, ls, q, from, k)
  }

  lemma {:induction false} ThroughIsAllowed(
    f: Fixed, ss: seq<System>, ls: seq<Label>, q: RateLimit.Request, from: int, n: nat)
    requires IsInterleaving(f, ss, ls) && n <= |ls| && ss[0].view.limits == map[] && RateLimit.Counted(q)
    ensures |Through(f, ss, ls, q, from, n)| == |RateLimit.AllowedIn(Questions(f, ss, ls, n), q, from)|
  {
    hide Next, Init, Asks, Question, RateLimit.AllowedIn, RateLimit.Answer, RateLimit.SameTriple, RateLimit.Counted;
    if n == 0 {
      NothingAllowed(q, from);
      assert Through(f, ss, ls, q, from, 0) == {};
    } else {
      ThroughIsAllowed(f, ss, ls, q, from, n - 1);
      LimitsAreTable(f, ss, ls, n - 1);
      LimitStep(f, ss[n - 1], ls[n - 1], ss[n]);
      var before := Through(f, ss, ls, q, from, n - 1);
      assert Through(f, ss, ls, q, from, n) ==
        if LetsThrough(f, ss, ls, q, from, n - 1) then before + {n - 1} else before;
      if Asks(f, ss[n - 1], ls[n - 1]) {
        QuestionTime(f, ss[n - 1], ls[n - 1]);
        OneMoreAnswer(Questions(f, ss, ls, n - 1), Question(f, ss[n - 1], ls[n - 1]), q, from);
      }
    }
  }

  lemma NothingAllowed(q: RateLimit.Request, from: int)
    ensures RateLimit.AllowedIn([], q, from) == {}
  {}

  lemma OneMoreAnswer(rs: seq<RateLimit.Request>, r: RateLimit.Request, q: RateLimit.Request, from: int)
    requires RateLimit.Counted(q)
    ensures |RateLimit.AllowedIn(rs + [r], q, from)| == |RateLimit.AllowedIn(rs, q, from)| +
      if RateLimit.SameTriple(r, q) && from <= r.now < from + q.window && RateLimit.Answer(RateLimit.Table(rs), r).1
      then 1 else 0
  {
    hide RateLimit.Answer, RateLimit.SameTriple, RateLimit.Counted;
    assert (rs + [r])[..|rs|] == rs;
    RateLimit.AllowedInLast(rs + [r], q, from);
  }

  /**
   Over any number of concurrent requests, the limiter lets at most `2 * max - 1` of one limit, identity and window
   through in any interval as long as a window of whole milliseconds.
   */
  lemma LimitHolds(f: Fixed, ss: seq<System>, ls: seq<Label>, q: RateLimit.Request, from: int, n: nat)
    requires IsInterleaving(f, ss, ls) && n <= |ls| && ss[0].view.limits == map[]
    requires RateLimit.Counted(q) && q.window % RateLimit.NANOS_PER_MILLI == 0
    ensures |Through(f, ss, ls, q, from, n)| <= 2 * q.max - 1
  {
    hide Next, Init, RateLimit.Counted, RateLimit.AllowedIn;
    ThroughIsAllowed(f, ss, ls, q, from, n);
    QuestionsInOrder(f, ss, ls, n);
    RateLimit.WholeMillisBound(Questions(f, ss, ls, n), q, from);
  }

  /** Nobody is granted past a limit without asking: only a request without a limit gets on without a question. */
  lemma LimitedMustAsk(f: Fixed, s: System, l: Label, s': System)
    requires Next(f, s, l, s') && l.Turn? && s.callers[l.id].stage.AtLimit? && s'.callers[l.id].stage.AtToken?
    ensures Asks(f, s, l) || DecisionFor(f.policy, s.callers[l.id].request, f.cfg.env).rateLimit.None?
  {
    hide DecisionFor, IsBlank, RateLimit.Answer, LimitIdentity;
  }
}
