/**
 Concurrent runs of `Check`: any number of requests share the stores, and every use of a store is one atomic
 step. A request keeps its place in a `Stage`; what it read earlier may be stale by the time it acts on it.
 */
module Pipeline {
  import opened Text
  import opened MemoryReplay
  import opened Server
  import Dpop

  datatype Stage =
    | AtClient
    | AtNonce
    | AtValidate(required: string)
    | AtRotate(validatedAt: int)
    | AtProofMark(validatedAt: int)
    | AtPolicy
    | AtLimit
    | AtToken
    | AtReply
    | Answered(resp: Response)

  datatype Caller = Caller(request: Request, stage: Stage)

  /** History: proof marks and token marks that succeeded, in order. */
  datatype Pass = Pass(caller: nat, validatedAt: int, markedAt: int)
  datatype Grant = Grant(caller: nat, at: int)

  datatype System = System(clock: int, view: View, callers: map<nat, Caller>, passes: seq<Pass>, grants: seq<Grant>)

  datatype Label = Tick(now: int) | Arrive(id: nat, request: Request) | Turn(id: nat, coin: string, outcome: Outcome)

  // ---------- one turn of one request ----------

  function OrElse(fault: Option<int>, next: Stage): Stage {
    if fault.Some? then Answered(Deny(DenyCode(fault.value))) else next
  }

  ghost predicate NonceTurn(f: Fixed, now: int, v: View, me: Caller, coin: string, v': View, stage': Stage) {
    && (v'.nonce, v'.nonceExp) == Dpop.CurrentNonce(v.nonce, v.nonceExp, now, f.cfg.nonceTtl, coin)
    && v' == v.(nonce := v'.nonce, nonceExp := v'.nonceExp)
    && stage' == AtValidate(v'.nonce)
  }

  ghost predicate ValidateTurn(f: Fixed, now: int, me: Caller, required: string, stage': Stage) {
    stage' == OrElse(Dpop.ProofFault(me.request.proof, now, f.cfg.maxAge, f.cfg.skew, required),
                     if f.cfg.nonceEnabled then AtRotate(now) else AtProofMark(now))
  }

  ghost predicate ProofTurn(f: Fixed, now: int, v: View, me: Caller, o: Outcome, v': View, stage': Stage) {
    var jti := me.request.proof.jti;
    if IsBlank(jti) then v' == v && stage' == AtPolicy
    else
      && Steps(v.proofs, f.proofTtl, f.proofMax, Trim(jti), now, v'.proofs, o)
      && v' == v.(proofs := v'.proofs)
      && stage' == if o.Fresh? then AtPolicy else Answered(Deny(403))
  }

  ghost predicate PolicyTurn(f: Fixed, me: Caller, stage': Stage) {
    var d := DecisionFor(f.policy, me.request, f.cfg.env);
    stage' == OrElse(Dpop.Or(HolderFault(me.request), DecisionFault(f.cfg.requiredScopes, d, me.request)), AtLimit)
  }

  ghost predicate LimitTurn(f: Fixed, now: int, v: View, me: Caller, v': View, stage': Stage) {
    var q := LimitOf(f, me.request, now);
    && v' == v.(limits := Consulted(true, v.limits, q))
    && stage' == OrElse(RateFault(v.limits, q), AtToken)
  }

  ghost predicate TokenTurn(f: Fixed, now: int, v: View, me: Caller, o: Outcome, v': View, stage': Stage) {
    var jti := me.request.token.claims.jwtId;
    if IsBlank(jti) then v' == v && stage' == Answered(Deny(401))
    else
      && Steps(v.tokens, f.tokenTtl, f.tokenMax, Trim(jti), now, v'.tokens, o)
      && v' == v.(tokens := v'.tokens)
      && stage' == if o.Fresh? then AtReply else Answered(Deny(403))
  }

  ghost predicate ReplyTurn(f: Fixed, now: int, v: View, me: Caller, coin: string, v': View, stage': Stage) {
    && (v'.nonce, v'.nonceExp) ==
         (if f.cfg.nonceEnabled then Dpop.CurrentNonce(v.nonce, v.nonceExp, now, f.cfg.nonceTtl, coin)
          else (v.nonce, v.nonceExp))
    && v' == v.(nonce := v'.nonce, nonceExp := v'.nonceExp)
    && stage' == Answered(Allow(me.request.token.claims.subject, me.request.identity.subject,
                                if f.cfg.nonceEnabled then v'.nonce else ""))
  }

  /** The stage that follows the checks on the client. */
  function AfterClient(f: Fixed, r: Request): Stage {
    if !NeedsProof(r) then AtPolicy else if f.cfg.nonceEnabled then AtNonce else AtValidate("")
  }

  ghost predicate Turns(f: Fixed, now: int, v: View, me: Caller, coin: string, o: Outcome, v': View, stage': Stage) {
    match me.stage
    case AtClient => v' == v && stage' == OrElse(ClientFault(f.cfg, me.request), AfterClient(f, me.request))
    case AtNonce => NonceTurn(f, now, v, me, coin, v', stage')
    case AtValidate(required) => v' == v && ValidateTurn(f, now, me, required, stage')
    case AtRotate(at) => v' == v.(nonce := coin, nonceExp := now + f.cfg.nonceTtl) && stage' == AtProofMark(at)
    case AtProofMark(_) => ProofTurn(f, now, v, me, o, v', stage')
    case AtPolicy => v' == v && PolicyTurn(f, me, stage')
    case AtLimit => LimitTurn(f, now, v, me, v', stage')
    case AtToken => TokenTurn(f, now, v, me, o, v', stage')
    case AtReply => ReplyTurn(f, now, v, me, coin, v', stage')
    case Answered(_) => false
  }

  // ---------- the system ----------

  /** The proof mark of this turn succeeded. */
  predicate PassesNow(me: Caller, stage': Stage) {
    me.stage.AtProofMark? && stage' == AtPolicy && !IsBlank(me.request.proof.jti)
  }

  predicate Granted(stage: Stage) {
    stage == AtReply || (stage.Answered? && stage.resp.Allow?)
  }

  ghost predicate Next(f: Fixed, s: System, l: Label, s': System) {
    match l
    case Tick(now) => s.clock <= now && s' == s.(clock := now)
    case Arrive(id, request) => id !in s.callers && s' == s.(callers := s.callers[id := Caller(request, AtClient)])
    case Turn(id, coin, o) =>
      && id in s.callers && id in s'.callers
      && Turned(f, s, id, coin, o, s.callers[id], s'.callers[id].stage, s')
  }

  ghost predicate Turned(
    f: Fixed, s: System, id: nat, coin: string, o: Outcome, me: Caller, stage': Stage, s': System)
  {
    && Turns(f, s.clock, s.view, me, coin, o, s'.view, stage')
    && s' == System(s.clock, s'.view, s.callers[id := me.(stage := stage')],
                    if PassesNow(me, stage') then s.passes + [Pass(id, me.stage.validatedAt, s.clock)] else s.passes,
                    if me.stage.AtToken? && stage'.AtReply? then s.grants + [Grant(id, s.clock)] else s.grants)
  }

  ghost predicate Init(f: Fixed, s: System) {
    && f.proofTtl > 0 && f.proofMax > 0 && f.tokenTtl > 0 && f.tokenMax > 0
    && Starts(s.view.proofs) && s.view.proofs.clock <= s.clock
    && Starts(s.view.tokens) && s.view.tokens.clock <= s.clock
    && s.callers == map[] && s.passes == [] && s.grants == []
  }

  ghost predicate IsInterleaving(f: Fixed, ss: seq<System>, ls: seq<Label>) {
    && |ss| == |ls| + 1 && Init(f, ss[0])
    && forall n :: 0 <= n < |ls| ==> Next(f, ss[n], ls[n], ss[n + 1])
  }

  // ---------- tokens: what is consumed is what is allowed ----------

  function TokenOf(s: System, id: nat): string
    requires id in s.callers
  {
    Trim(s.callers[id].request.token.claims.jwtId)
  }

  ghost predicate HasGrant(s: System, id: nat) {
    exists i :: 0 <= i < |s.grants| && s.grants[i].caller == id
  }

  /** Grant `i` is entry `i` of the token cache's log, and belongs to a request that is allowed. */
  ghost predicate GrantLogged(s: System, i: nat)
    requires i < |s.grants| && |s.grants| == |s.view.tokens.log|
  {
    var g := s.grants[i];
    && g.caller in s.callers && Granted(s.callers[g.caller].stage)
    && s.view.tokens.log[i] == Accepted(TokenOf(s, g.caller), g.at)
  }

  ghost predicate OneGrantEach(s: System) {
    forall i, j :: 0 <= i < j < |s.grants| ==> s.grants[i].caller != s.grants[j].caller
  }

  ghost predicate Tokens(f: Fixed, s: System) {
    && Inv(s.view.tokens, f.tokenTtl, f.tokenMax) && s.view.tokens.clock <= s.clock
    && |s.grants| == |s.view.tokens.log|
    && (forall i :: 0 <= i < |s.grants| ==> GrantLogged(s, i))
    && OneGrantEach(s)
    && (forall id :: id in s.callers && Granted(s.callers[id].stage) ==> HasGrant(s, id))
  }

  lemma TokensInit(f: Fixed, s: System)
    requires Init(f, s)
    ensures Tokens(f, s)
  {
    StartsInv(s.view.tokens, f.tokenTtl, f.tokenMax);
  }

  /** A turn elsewhere neither touches the token cache nor makes or unmakes a grant. */
  lemma OtherTurn(f: Fixed, s: System, l: Label, s': System)
    requires Next(f, s, l, s') && !(l.Turn? && s.callers[l.id].stage.AtToken?)
    ensures s'.view.tokens == s.view.tokens && s'.grants == s.grants && s.clock <= s'.clock
    ensures forall id :: id in s.callers ==>
      id in s'.callers && s'.callers[id].request == s.callers[id].request &&
      (Granted(s'.callers[id].stage) <==> Granted(s.callers[id].stage))
    ensures forall id :: id in s'.callers && id !in s.callers ==> !Granted(s'.callers[id].stage)
  {
    hide Steps, ClientFault, HolderFault, DecisionFault, DecisionFor, RateFault, Consulted, LimitOf, Dpop.ProofFault,
      Dpop.CurrentNonce, NeedsProof, IsBlank, DenyCode;
  }

  lemma OtherTokens(f: Fixed, s: System, s': System)
    requires Tokens(f, s) && s'.view.tokens == s.view.tokens && s'.grants == s.grants && s.clock <= s'.clock
    requires forall id :: id in s.callers ==>
      id in s'.callers && s'.callers[id].request == s.callers[id].request &&
      (Granted(s'.callers[id].stage) <==> Granted(s.callers[id].stage))
    requires forall id :: id in s'.callers && id !in s.callers ==> !Granted(s'.callers[id].stage)
    ensures Tokens(f, s')
  {
    hide Inv, Granted;
    forall i | 0 <= i < |s'.grants| ensures GrantLogged(s', i) {
      assert GrantLogged(s, i);
    }
    forall id | id in s'.callers && Granted(s'.callers[id].stage) ensures HasGrant(s', id) {
      assert HasGrant(s, id);
    }
  }

  /** The token turn: an accepted identifier is logged and its request is allowed; otherwise neither. */
  lemma TokenTurnLogs(f: Fixed, s: System, id: nat, o: Outcome, v': View, stage': Stage, jti: string)
    requires id in s.callers && TokenTurn(f, s.clock, s.view, s.callers[id], o, v', stage')
    requires jti == Trim(s.callers[id].request.token.claims.jwtId)
    requires Inv(s.view.tokens, f.tokenTtl, f.tokenMax) && s.view.tokens.clock <= s.clock
    ensures Inv(v'.tokens, f.tokenTtl, f.tokenMax) && v'.tokens.clock <= s.clock
    ensures stage'.AtReply? <==> Granted(stage')
    ensures v'.tokens.log == if stage'.AtReply? then s.view.tokens.log + [Accepted(jti, s.clock)] else s.view.tokens.log
  {
    hide Inv, Marks;
    if Steps(s.view.tokens, f.tokenTtl, f.tokenMax, jti, s.clock, v'.tokens, o) {
      StepInv(s.view.tokens, f.tokenTtl, f.tokenMax, jti, s.clock, v'.tokens, o);
    }
  }

  /** Only the stage of request `id` differs between two systems. */
  ghost predicate OnlyMoves(s: System, id: nat, s': System) {
    && id in s.callers && !Granted(s.callers[id].stage)
    && s'.callers.Keys == s.callers.Keys
    && (forall c :: c in s.callers ==> s'.callers[c].request == s.callers[c].request)
    && (forall c :: c in s.callers && c != id ==> s'.callers[c].stage == s.callers[c].stage)
  }

  /** Request `id` is granted its token. */
  ghost predicate Grants(s: System, id: nat, s': System) {
    && OnlyMoves(s, id, s') && Granted(s'.callers[id].stage)
    && s'.view.tokens.log == s.view.tokens.log + [Accepted(TokenOf(s, id), s.clock)]
    && s'.grants == s.grants + [Grant(id, s.clock)]
  }

  /** What a token turn does to the log, the grants and the callers. */
  lemma TokenStep(f: Fixed, s: System, id: nat, o: Outcome, coin: string, s': System)
    requires Tokens(f, s) && Next(f, s, Turn(id, coin, o), s') && s.callers[id].stage.AtToken?
    ensures Inv(s'.view.tokens, f.tokenTtl, f.tokenMax) && s'.view.tokens.clock <= s'.clock
    ensures OnlyMoves(s, id, s')
    ensures
      if Granted(s'.callers[id].stage) then Grants(s, id, s')
      else s'.view.tokens.log == s.view.tokens.log && s'.grants == s.grants
  {
    hide Inv, TokenTurn, GrantLogged, HasGrant, OneGrantEach;
    TokenTurnLogs(f, s, id, o, s'.view, s'.callers[id].stage, TokenOf(s, id));
  }

  lemma GrantStep(f: Fixed, s: System, id: nat, o: Outcome, coin: string, s': System)
    requires Tokens(f, s) && Next(f, s, Turn(id, coin, o), s') && s.callers[id].stage.AtToken?
    ensures Tokens(f, s')
  {
    TokenStep(f, s, id, o, coin, s');
    assert id in s'.callers;
    hide *;
    if Granted(s'.callers[id].stage) {
      OneMoreGrant(f, s, id, s');
    } else {
      OtherGrants(f, s, id, s');
    }
  }

  lemma OneMoreGrant(f: Fixed, s: System, id: nat, s': System)
    requires Tokens(f, s) && Grants(s, id, s')
    requires Inv(s'.view.tokens, f.tokenTtl, f.tokenMax) && s'.view.tokens.clock <= s'.clock
    ensures Tokens(f, s')
  {
    TokensFacts(f, s);
    NewGrantDistinct(f, s, id, s');
    hide Inv, Granted, Tokens, HasGrant, OneGrantEach, TokenOf, GrantsKnown;
    forall i | 0 <= i < |s'.grants| ensures GrantLogged(s', i) {
      hide GrantLogged;
      NewGrantLogged(f, s, id, s', i);
    }
    hide GrantLogged;
    forall c | c in s'.callers && Granted(s'.callers[c].stage) ensures HasGrant(s', c) {
      NewGrantFound(s, id, s', c);
    }
    TokensMade(f, s');
  }

  lemma NewGrantLogged(f: Fixed, s: System, id: nat, s': System, i: nat)
    requires Tokens(f, s) && Grants(s, id, s') && i < |s'.grants|
    ensures |s'.grants| == |s'.view.tokens.log| && GrantLogged(s', i)
  {
    hide Inv, OneGrantEach, HasGrant;
    if i < |s.grants| {
      assert GrantLogged(s, i);
    }
  }

  lemma NewGrantDistinct(f: Fixed, s: System, id: nat, s': System)
    requires Tokens(f, s) && Grants(s, id, s')
    ensures OneGrantEach(s')
  {
    TokensFacts(f, s);
    hide Tokens;
  }

  lemma NewGrantFound(s: System, id: nat, s': System, c: nat)
    requires Grants(s, id, s') && c in s'.callers && (c != id && Granted(s'.callers[c].stage) ==> HasGrant(s, c))
    ensures Granted(s'.callers[c].stage) ==> HasGrant(s', c)
  {
    hide Granted;
    GrantKept(s, s', c);
    assert s'.grants[|s.grants|].caller == id;
  }

  lemma OtherGrants(f: Fixed, s: System, id: nat, s': System)
    requires Tokens(f, s) && OnlyMoves(s, id, s') && !Granted(s'.callers[id].stage)
    requires Inv(s'.view.tokens, f.tokenTtl, f.tokenMax) && s'.view.tokens.clock <= s'.clock
    requires s'.view.tokens.log == s.view.tokens.log && s'.grants == s.grants
    ensures Tokens(f, s')
  {
    TokensFacts(f, s);
    hide Inv, Granted, Tokens;
    forall i | 0 <= i < |s'.grants| ensures GrantLogged(s', i) {}
    forall c | c in s'.callers && Granted(s'.callers[c].stage) ensures HasGrant(s', c) {
      GrantKept(s, s', c);
    }
    TokensMade(f, s');
  }

  lemma TokensMade(f: Fixed, s: System)
    requires Inv(s.view.tokens, f.tokenTtl, f.tokenMax) && s.view.tokens.clock <= s.clock
    requires |s.grants| == |s.view.tokens.log| && OneGrantEach(s)
    requires forall i :: 0 <= i < |s.grants| ==> GrantLogged(s, i)
    requires forall id :: id in s.callers && Granted(s.callers[id].stage) ==> HasGrant(s, id)
    ensures Tokens(f, s)
  {}

  lemma GrantKept(s: System, s': System, c: nat)
    requires s.grants <= s'.grants
    ensures HasGrant(s, c) ==> HasGrant(s', c)
  {
    if HasGrant(s, c) {
      var i :| 0 <= i < |s.grants| && s.grants[i].caller == c;
      assert s'.grants[i] == s.grants[i];
    }
  }

  lemma TokensStep(f: Fixed, s: System, l: Label, s': System)
    requires Tokens(f, s) && Next(f, s, l, s')
    ensures Tokens(f, s')
  {
    hide Tokens, Turns, Inv;
    if l.Turn? && s.callers[l.id].stage.AtToken? {
      GrantStep(f, s, l.id, l.outcome, l.coin, s');
    } else {
      OtherTurn(f, s, l, s');
      OtherTokens(f, s, s');
    }
  }

  lemma {:induction false} TokensRun(f: Fixed, ss: seq<System>, ls: seq<Label>, n: nat)
    requires IsInterleaving(f, ss, ls) && n <= |ls|
    ensures Tokens(f, ss[n])
  {
    hide Tokens, Next;
    if n == 0 {
      TokensInit(f, ss[0]);
    } else {
      TokensRun(f, ss, ls, n - 1);
      TokensStep(f, ss[n - 1], ls[n - 1], ss[n]);
    }
  }

  /** A token is consumed for exactly the requests that are allowed, once each: denied requests consume none. */
  lemma AllowedIffConsumed(f: Fixed, ss: seq<System>, ls: seq<Label>, n: nat, id: nat)
    requires IsInterleaving(f, ss, ls) && n <= |ls| && id in ss[n].callers
    ensures Granted(ss[n].callers[id].stage) <==> HasGrant(ss[n], id)
    ensures |ss[n].grants| == |ss[n].view.tokens.log| && OneGrantEach(ss[n])
    ensures forall i :: 0 <= i < |ss[n].grants| && ss[n].grants[i].caller == id ==>
      ss[n].view.tokens.log[i] == Accepted(TokenOf(ss[n], id), ss[n].grants[i].at)
  {
    TokensRun(f, ss, ls, n);
    TokensFacts(f, ss[n]);
  }

  lemma TokensFacts(f: Fixed, s: System)
    requires Tokens(f, s)
    ensures |s.grants| == |s.view.tokens.log| && OneGrantEach(s) && GrantsKnown(s)
    ensures forall id :: id in s.callers ==> (Granted(s.callers[id].stage) <==> HasGrant(s, id))
    ensures forall i :: 0 <= i < |s.grants| ==>
      s.view.tokens.log[i] == Accepted(TokenOf(s, s.grants[i].caller), s.grants[i].at)
  {
    hide Inv, Granted, OneGrantEach;
    forall i | 0 <= i < |s.grants|
      ensures s.grants[i].caller in s.callers && Granted(s.callers[s.grants[i].caller].stage)
      ensures s.view.tokens.log[i] == Accepted(TokenOf(s, s.grants[i].caller), s.grants[i].at)
    {
      assert GrantLogged(s, i);
    }
  }

  /** Every grant is that of a request which is allowed. */
  ghost predicate GrantsKnown(s: System) {
    forall k :: 0 <= k < |s.grants| ==> s.grants[k].caller in s.callers && Granted(s.callers[s.grants[k].caller].stage)
  }

  /** The other token identifiers granted before grant `j` at times no earlier than grant `i`. */
  ghost function OtherTokensGranted(s: System, i: nat, j: nat): set<string>
    requires i < |s.grants| && j <= |s.grants| && GrantsKnown(s)
  {
    set k | 0 <= k < j && s.grants[k].at >= s.grants[i].at
            && TokenOf(s, s.grants[k].caller) != TokenOf(s, s.grants[i].caller)
      :: TokenOf(s, s.grants[k].caller)
  }

  /**
   Two requests with one token are both allowed within the cache's time to live only if as many other tokens as
   the cache holds were allowed in between.
   */
  lemma ReplayAcrossAllows(f: Fixed, ss: seq<System>, ls: seq<Label>, n: nat, i: nat, j: nat)
    requires IsInterleaving(f, ss, ls) && n <= |ls| && i < j < |ss[n].grants|
    ensures GrantsKnown(ss[n])
    ensures
      && TokenOf(ss[n], ss[n].grants[i].caller) == TokenOf(ss[n], ss[n].grants[j].caller)
      && ss[n].grants[j].at <= ss[n].grants[i].at + f.tokenTtl
      ==> |OtherTokensGranted(ss[n], i, j)| >= f.tokenMax
  {
    TokensRun(f, ss, ls, n);
    GrantsBounded(f, ss[n], i, j);
  }

  lemma GrantsBounded(f: Fixed, s: System, i: nat, j: nat)
    requires Tokens(f, s) && i < j < |s.grants|
    ensures GrantsKnown(s)
    ensures
      && TokenOf(s, s.grants[i].caller) == TokenOf(s, s.grants[j].caller)
      && s.grants[j].at <= s.grants[i].at + f.tokenTtl
      ==> |OtherTokensGranted(s, i, j)| >= f.tokenMax
  {
    TokensFacts(f, s);
    MarksBounded(s.view.tokens, f.tokenTtl, f.tokenMax, i, j);
    hide Inv, Tokens, Granted, TokenOf;
    assert OtherTokensGranted(s, i, j) == Others(s.view.tokens.log, i, j);
  }

  lemma MarksBounded(h: History, ttl: int, max: int, i: nat, j: nat)
    requires Inv(h, ttl, max) && i < j < |h.log|
    ensures h.log[i].jti == h.log[j].jti && h.log[j].at <= h.log[i].at + ttl ==> |Others(h.log, i, j)| >= max
  {
    assert Bounded(h.log, ttl, max);
  }

  // ---------- proofs: a proof passes once ----------

  /** The proof was valid at time `at`, whatever nonce was asked for. */
  ghost predicate ValidAt(f: Fixed, p: Dpop.Proof, at: int) {
    exists nonce :: Dpop.ProofFault(p, at, f.cfg.maxAge, f.cfg.skew, nonce) == None
  }

  ghost predicate Validated(f: Fixed, clock: int, me: Caller) {
    me.stage.AtRotate? || me.stage.AtProofMark? ==>
      ValidAt(f, me.request.proof, me.stage.validatedAt) && me.stage.validatedAt <= clock
  }

  /** Pass `i` is entry `i` of the proof cache's log. */
  ghost predicate PassLogged(f: Fixed, s: System, i: nat)
    requires i < |s.passes| && |s.passes| == |s.view.proofs.log|
  {
    var p := s.passes[i];
    && p.caller in s.callers
    && ValidAt(f, s.callers[p.caller].request.proof, p.validatedAt) && p.validatedAt <= p.markedAt
    && s.view.proofs.log[i] == Accepted(Trim(s.callers[p.caller].request.proof.jti), p.markedAt)
  }

  ghost predicate Proofs(f: Fixed, s: System) {
    && Inv(s.view.proofs, f.proofTtl, f.proofMax) && s.view.proofs.clock <= s.clock
    && (forall id :: id in s.callers ==> Validated(f, s.clock, s.callers[id]))
    && |s.passes| == |s.view.proofs.log|
    && (forall i :: 0 <= i < |s.passes| ==> PassLogged(f, s, i))
  }

  lemma ProofsInit(f: Fixed, s: System)
    requires Init(f, s)
    ensures Proofs(f, s)
  {
    StartsInv(s.view.proofs, f.proofTtl, f.proofMax);
  }

  /** Only a proof mark changes the proof cache, and only a validation makes a request validated. */
  lemma TurnProofs(f: Fixed, now: int, v: View, me: Caller, coin: string, o: Outcome, v': View, stage': Stage)
    requires Turns(f, now, v, me, coin, o, v', stage') && Validated(f, now, me)
    ensures Validated(f, now, me.(stage := stage'))
    ensures !me.stage.AtProofMark? ==> v'.proofs == v.proofs
  {
    hide Steps, ClientFault, HolderFault, DecisionFault, DecisionFor, RateFault, Consulted, LimitOf, Dpop.ProofFault,
      Dpop.CurrentNonce, NeedsProof, IsBlank, DenyCode;
    if me.stage.AtValidate? {
      ghost var fault := Dpop.ProofFault(me.request.proof, now, f.cfg.maxAge, f.cfg.skew, me.stage.required);
      assert fault == None ==> ValidAt(f, me.request.proof, now);
    }
  }

  lemma ProofTurnLogs(f: Fixed, s: System, me: Caller, o: Outcome, v': View, stage': Stage, jti: string)
    requires ProofTurn(f, s.clock, s.view, me, o, v', stage') && me.stage.AtProofMark?
    requires jti == Trim(me.request.proof.jti)
    requires Inv(s.view.proofs, f.proofTtl, f.proofMax) && s.view.proofs.clock <= s.clock
    ensures Inv(v'.proofs, f.proofTtl, f.proofMax) && v'.proofs.clock <= s.clock
    ensures v'.proofs.log ==
      if PassesNow(me, stage') then s.view.proofs.log + [Accepted(jti, s.clock)] else s.view.proofs.log
  {
    hide Inv, Marks;
    if Steps(s.view.proofs, f.proofTtl, f.proofMax, jti, s.clock, v'.proofs, o) {
      StepInv(s.view.proofs, f.proofTtl, f.proofMax, jti, s.clock, v'.proofs, o);
    }
  }

  /** What a step does to the proof cache and its history. */
  lemma ProofsLogged(f: Fixed, s: System, l: Label, s': System)
    requires Proofs(f, s) && Next(f, s, l, s')
    ensures Inv(s'.view.proofs, f.proofTtl, f.proofMax) && s'.view.proofs.clock <= s'.clock
    ensures forall id :: id in s.callers ==> id in s'.callers && s'.callers[id].request == s.callers[id].request
    ensures
      || (s'.passes == s.passes && s'.view.proofs.log == s.view.proofs.log)
      || (l.Turn? && l.id in s.callers && s.callers[l.id].stage.AtProofMark?
          && s'.passes == s.passes + [Pass(l.id, s.callers[l.id].stage.validatedAt, s.clock)]
          && s'.view.proofs.log == s.view.proofs.log + [Accepted(Trim(s.callers[l.id].request.proof.jti), s.clock)])
  {
    hide Inv, PassLogged, Turns, Validated;
    if l.Turn? {
      ProofsTurn(f, s, l.id, l.coin, l.outcome, s.callers[l.id], s'.callers[l.id].stage, s');
    }
  }

  lemma ProofsTurn(f: Fixed, s: System, id: nat, coin: string, o: Outcome, me: Caller, stage': Stage, s': System)
    requires Proofs(f, s) && id in s.callers && me == s.callers[id] && Turned(f, s, id, coin, o, me, stage', s')
    ensures Inv(s'.view.proofs, f.proofTtl, f.proofMax) && s'.view.proofs.clock <= s.clock
    ensures s'.view.proofs.log ==
      if PassesNow(me, stage') then s.view.proofs.log + [Accepted(Trim(me.request.proof.jti), s.clock)]
      else s.view.proofs.log
  {
    hide Inv, ProofTurn, PassLogged, Turns, Validated;
    if me.stage.AtProofMark? {
      MarkTurn(f, s.clock, s.view, me, coin, o, s'.view, stage');
      ProofTurnLogs(f, s, me, o, s'.view, stage', Trim(me.request.proof.jti));
    } else {
      TurnProofs(f, s.clock, s.view, me, coin, o, s'.view, stage');
    }
  }

  lemma MarkTurn(f: Fixed, now: int, v: View, me: Caller, coin: string, o: Outcome, v': View, stage': Stage)
    requires Turns(f, now, v, me, coin, o, v', stage') && me.stage.AtProofMark?
    ensures ProofTurn(f, now, v, me, o, v', stage')
  {
    hide ProofTurn;
  }

  lemma ProofsCallers(f: Fixed, s: System, l: Label, s': System, id: nat)
    requires Proofs(f, s) && Next(f, s, l, s') && id in s'.callers
    ensures Validated(f, s'.clock, s'.callers[id])
  {
    hide Inv, PassLogged, Turns, ValidAt;
    if id in s.callers {
      assert Validated(f, s.clock, s.callers[id]);
    }
    if l.Turn? {
      TurnProofs(f, s.clock, s.view, s.callers[l.id], l.coin, l.outcome, s'.view, s'.callers[l.id].stage);
    }
  }

  lemma ProofsStep(f: Fixed, s: System, l: Label, s': System)
    requires Proofs(f, s) && Next(f, s, l, s')
    ensures Proofs(f, s')
  {
    ProofsLogged(f, s, l, s');
    hide Next, Inv, ValidAt, Validated, PassLogged;
    forall id | id in s'.callers ensures Validated(f, s'.clock, s'.callers[id]) {
      ProofsCallers(f, s, l, s', id);
    }
    forall i | 0 <= i < |s'.passes| ensures PassLogged(f, s', i) {
      PassKept(f, s, l, s', i);
    }
  }

  lemma PassKept(f: Fixed, s: System, l: Label, s': System, i: nat)
    requires Proofs(f, s) && |s'.passes| == |s'.view.proofs.log| && i < |s'.passes|
    requires forall id :: id in s.callers ==> id in s'.callers && s'.callers[id].request == s.callers[id].request
    requires
      || (s'.passes == s.passes && s'.view.proofs.log == s.view.proofs.log)
      || (l.Turn? && l.id in s.callers && s.callers[l.id].stage.AtProofMark?
          && s'.passes == s.passes + [Pass(l.id, s.callers[l.id].stage.validatedAt, s.clock)]
          && s'.view.proofs.log == s.view.proofs.log + [Accepted(Trim(s.callers[l.id].request.proof.jti), s.clock)])
    ensures PassLogged(f, s', i)
  {
    hide Inv, ValidAt;
    if i < |s.passes| {
      assert PassLogged(f, s, i);
    } else {
      assert Validated(f, s.clock, s.callers[l.id]);
    }
  }

  lemma {:induction false} ProofsRun(f: Fixed, ss: seq<System>, ls: seq<Label>, n: nat)
    requires IsInterleaving(f, ss, ls) && n <= |ls|
    ensures Proofs(f, ss[n])
  {
    hide Proofs, Next;
    if n == 0 {
      ProofsInit(f, ss[0]);
    } else {
      ProofsRun(f, ss, ls, n - 1);
      ProofsStep(f, ss[n - 1], ls[n - 1], ss[n]);
    }
  }

  function ProofId(s: System, id: nat): string
    requires id in s.callers
  {
    Trim(s.callers[id].request.proof.jti)
  }

  ghost predicate PassesKnown(s: System) {
    forall k :: 0 <= k < |s.passes| ==> s.passes[k].caller in s.callers
  }

  lemma ProofsFacts(f: Fixed, s: System)
    requires Proofs(f, s)
    ensures |s.passes| == |s.view.proofs.log| && PassesKnown(s)
    ensures forall i :: 0 <= i < |s.passes| ==>
      s.view.proofs.log[i] == Accepted(ProofId(s, s.passes[i].caller), s.passes[i].markedAt)
    ensures forall i :: 0 <= i < |s.passes| ==>
      && ValidAt(f, s.callers[s.passes[i].caller].request.proof, s.passes[i].validatedAt)
      && s.passes[i].validatedAt <= s.passes[i].markedAt
  {
    hide Inv, ValidAt, Validated;
    forall i | 0 <= i < |s.passes|
      ensures s.passes[i].caller in s.callers
      ensures s.view.proofs.log[i] == Accepted(ProofId(s, s.passes[i].caller), s.passes[i].markedAt)
      ensures ValidAt(f, s.callers[s.passes[i].caller].request.proof, s.passes[i].validatedAt)
      ensures s.passes[i].validatedAt <= s.passes[i].markedAt
    {
      assert PassLogged(f, s, i);
    }
  }

  /** The other proofs that passed before pass `j` at times no earlier than pass `i`. */
  ghost function OtherPasses(s: System, i: nat, j: nat): set<string>
    requires i < |s.passes| && j <= |s.passes| && PassesKnown(s)
  {
    set k | 0 <= k < j && s.passes[k].markedAt >= s.passes[i].markedAt
            && ProofId(s, s.passes[k].caller) != ProofId(s, s.passes[i].caller)
      :: ProofId(s, s.passes[k].caller)
  }

  /**
   A proof passes at most once over its whole life, under any interleaving and whatever the nonces: a second
   pass needs as many other proofs in between as the cache holds, provided that the cache remembers for the
   validity window of a proof and for the time `delay` between the second validation and its mark.
   */
  lemma ProofPassesOnce(f: Fixed, ss: seq<System>, ls: seq<Label>, n: nat, delay: int, i: nat, j: nat)
    requires IsInterleaving(f, ss, ls) && n <= |ls| && i < j < |ss[n].passes|
    requires ss[n].passes[j].markedAt - ss[n].passes[j].validatedAt <= delay
    requires f.proofTtl >= Dpop.EffectiveMaxAge(f.cfg.maxAge) + Dpop.EffectiveSkew(f.cfg.skew) + delay
    ensures PassesKnown(ss[n])
    ensures ss[n].callers[ss[n].passes[i].caller].request.proof == ss[n].callers[ss[n].passes[j].caller].request.proof
      ==> |OtherPasses(ss[n], i, j)| >= f.proofMax
  {
    ProofsRun(f, ss, ls, n);
    PassesBounded(f, ss[n], delay, i, j);
  }

  lemma PassesBounded(f: Fixed, s: System, delay: int, i: nat, j: nat)
    requires Proofs(f, s) && i < j < |s.passes| && s.passes[j].markedAt - s.passes[j].validatedAt <= delay
    requires f.proofTtl >= Dpop.EffectiveMaxAge(f.cfg.maxAge) + Dpop.EffectiveSkew(f.cfg.skew) + delay
    ensures PassesKnown(s)
    ensures s.callers[s.passes[i].caller].request.proof == s.callers[s.passes[j].caller].request.proof
      ==> |OtherPasses(s, i, j)| >= f.proofMax
  {
    ProofsFacts(f, s);
    MarksBounded(s.view.proofs, f.proofTtl, f.proofMax, i, j);
    hide Inv, ValidAt, Proofs, Dpop.EffectiveMaxAge, Dpop.EffectiveSkew;
    assert OtherPasses(s, i, j) == Others(s.view.proofs.log, i, j);
    var p, q := s.passes[i], s.passes[j];
    if s.callers[p.caller].request.proof == s.callers[q.caller].request.proof {
      WindowOfPasses(f, s.callers[p.caller].request.proof, p, q, delay);
    }
  }

  lemma WindowOfPasses(f: Fixed, proof: Dpop.Proof, p: Pass, q: Pass, delay: int)
    requires ValidAt(f, proof, p.validatedAt) && ValidAt(f, proof, q.validatedAt)
    requires p.validatedAt <= p.markedAt && q.markedAt - q.validatedAt <= delay
    ensures q.markedAt - p.markedAt <= Dpop.EffectiveMaxAge(f.cfg.maxAge) + Dpop.EffectiveSkew(f.cfg.skew) + delay
  {
    hide Dpop.EffectiveMaxAge, Dpop.EffectiveSkew;
    var m :| Dpop.ProofFault(proof, p.validatedAt, f.cfg.maxAge, f.cfg.skew, m) == None;
    var n :| Dpop.ProofFault(proof, q.validatedAt, f.cfg.maxAge, f.cfg.skew, n) == None;
    Dpop.ValidWindow(proof, p.validatedAt, q.validatedAt, f.cfg.maxAge, f.cfg.skew, m, n);
  }
}
