/**
 One `Check` on its own is a run of the concurrent pipeline: the gates in the order of the small steps give the
 answer and the stores that the call promises.
 */
module CheckRefines {
  import opened Text
  import opened MemoryReplay
  import opened Server
  import opened Pipeline
  import Dpop

  // ---------- the rest of a request, from each stage on, when nothing else moves ----------

  ghost predicate FromReply(f: Fixed, now: int, v: View, r: Request, ns: Nonces, v': View, resp: Response) {
    ReplyTurn(f, now, v, Caller(r, AtReply), ns.last, v', Answered(resp))
  }

  ghost predicate DeniedAt(v: View, fault: Option<int>, v': View, resp: Response)
    requires fault.Some?
  {
    v' == v && resp == Deny(DenyCode(fault.value))
  }

  ghost predicate FromToken(f: Fixed, now: int, v: View, r: Request, ns: Nonces, v': View, resp: Response) {
    var jti := r.token.claims.jwtId;
    var fault := ReplayFault(v.tokens.mem, f.tokenTtl, jti, now);
    && CacheTouched(true, v.tokens, f.tokenTtl, f.tokenMax, jti, now, v'.tokens)
    && var v1 := v.(tokens := v'.tokens);
       if fault.Some? then DeniedAt(v1, fault, v', resp) else FromReply(f, now, v1, r, ns, v', resp)
  }

  ghost predicate FromLimit(f: Fixed, now: int, v: View, r: Request, ns: Nonces, v': View, resp: Response) {
    var q := LimitOf(f, r, now);
    var fault := RateFault(v.limits, q);
    var v1 := v.(limits := Consulted(true, v.limits, q));
    if fault.Some? then DeniedAt(v1, fault, v', resp) else FromToken(f, now, v1, r, ns, v', resp)
  }

  ghost function StaticFault(f: Fixed, r: Request): Option<int> {
    Dpop.Or(HolderFault(r), DecisionFault(f.cfg.requiredScopes, DecisionFor(f.policy, r, f.cfg.env), r))
  }

  ghost predicate FromPolicy(f: Fixed, now: int, v: View, r: Request, ns: Nonces, v': View, resp: Response) {
    var fault := StaticFault(f, r);
    if fault.Some? then DeniedAt(v, fault, v', resp) else FromLimit(f, now, v, r, ns, v', resp)
  }

  ghost predicate FromProofMark(f: Fixed, now: int, v: View, r: Request, ns: Nonces, v': View, resp: Response) {
    var fault := if IsBlank(r.proof.jti) then None else ReplayFault(v.proofs.mem, f.proofTtl, r.proof.jti, now);
    && CacheTouched(true, v.proofs, f.proofTtl, f.proofMax, r.proof.jti, now, v'.proofs)
    && var v1 := v.(proofs := v'.proofs);
       if fault.Some? then DeniedAt(v1, fault, v', resp) else FromPolicy(f, now, v1, r, ns, v', resp)
  }

  ghost predicate FromRotate(f: Fixed, now: int, v: View, r: Request, ns: Nonces, v': View, resp: Response) {
    FromProofMark(f, now, v.(nonce := ns.rotated, nonceExp := now + f.cfg.nonceTtl), r, ns, v', resp)
  }

  ghost predicate FromValidate(
    f: Fixed, now: int, v: View, r: Request, required: string, ns: Nonces, v': View, resp: Response)
  {
    var fault := Dpop.ProofFault(r.proof, now, f.cfg.maxAge, f.cfg.skew, required);
    if fault.Some? then DeniedAt(v, fault, v', resp)
    else if f.cfg.nonceEnabled then FromRotate(f, now, v, r, ns, v', resp)
    else FromProofMark(f, now, v, r, ns, v', resp)
  }

  ghost predicate FromNonce(f: Fixed, now: int, v: View, r: Request, ns: Nonces, v': View, resp: Response) {
    var n := Dpop.CurrentNonce(v.nonce, v.nonceExp, now, f.cfg.nonceTtl, ns.first);
    FromValidate(f, now, v.(nonce := n.0, nonceExp := n.1), r, n.0, ns, v', resp)
  }

  ghost predicate FromClient(f: Fixed, now: int, v: View, r: Request, ns: Nonces, v': View, resp: Response) {
    var fault := ClientFault(f.cfg, r);
    if fault.Some? then DeniedAt(v, fault, v', resp)
    else if !NeedsProof(r) then FromPolicy(f, now, v, r, ns, v', resp)
    else if f.cfg.nonceEnabled then FromNonce(f, now, v, r, ns, v', resp)
    else FromValidate(f, now, v, r, "", ns, v', resp)
  }

  // ---------- what a call promises, stage by stage ----------

  /** The promises about the token cache, the nonce and the answer, once the gates before have passed. */
  lemma ChecksLimit(f: Fixed, now: int, v: View, r: Request, ns: Nonces, v1: View, v': View, resp: Response)
    requires Checks(f, v, r, now, ns, v', resp) && FaultBeforeLimits(f, v, r, now, ns).None?
    requires v1 == View(v1.nonce, v1.nonceExp, v'.proofs, v.limits, v.tokens)
    requires (v1.nonce, v1.nonceExp) == NonceAfterGates(f, v, r, now, ns)
    ensures FromLimit(f, now, v1, r, ns, v', resp)
  {
    hide ReplayFault, RateFault, Steps, LimitOf, FaultBeforeLimits, NonceAfterGates, IsBlank,
      Dpop.CurrentNonce, DenyCode;
  }

  lemma ChecksPolicy(f: Fixed, now: int, v: View, r: Request, ns: Nonces, v1: View, v': View, resp: Response)
    requires Checks(f, v, r, now, ns, v', resp)
    requires FaultBeforeProofs(f, v, r, now, ns).None? && ProofReplayFault(v.proofs.mem, f.proofTtl, r, now).None?
    requires v1 == View(v1.nonce, v1.nonceExp, v'.proofs, v.limits, v.tokens)
    requires (v1.nonce, v1.nonceExp) == NonceAfterGates(f, v, r, now, ns)
    ensures FromPolicy(f, now, v1, r, ns, v', resp)
  {
    hide HolderFault, DecisionFault, DecisionFor, ProofReplayFault, FaultBeforeProofs, FromLimit, NonceAfterGates,
      RateFault, ReplayFault, Steps, LimitOf, Dpop.CurrentNonce, DenyCode, IsBlank;
    if StaticFault(f, r).None? {
      ChecksLimit(f, now, v, r, ns, v1, v', resp);
    }
  }

  lemma ChecksProofMark(f: Fixed, now: int, v: View, r: Request, ns: Nonces, v1: View, v': View, resp: Response)
    requires Checks(f, v, r, now, ns, v', resp) && FaultBeforeProofs(f, v, r, now, ns).None? && NeedsProof(r)
    requires v1 == View(v1.nonce, v1.nonceExp, v.proofs, v.limits, v.tokens)
    requires (v1.nonce, v1.nonceExp) == NonceAfterGates(f, v, r, now, ns)
    ensures FromProofMark(f, now, v1, r, ns, v', resp)
  {
    hide HolderFault, DecisionFault, DecisionFor, FaultBeforeProofs, FromPolicy, NonceAfterGates,
      RateFault, ReplayFault, Steps, LimitOf, Dpop.CurrentNonce, DenyCode, IsBlank, NeedsProof;
    if ProofReplayFault(v.proofs.mem, f.proofTtl, r, now).None? {
      ChecksPolicy(f, now, v, r, ns, v1.(proofs := v'.proofs), v', resp);
    }
  }

  lemma ChecksValidate(f: Fixed, now: int, v: View, r: Request, ns: Nonces, v1: View, v': View, resp: Response)
    requires Checks(f, v, r, now, ns, v', resp) && ClientFault(f.cfg, r).None? && NeedsProof(r)
    requires v1 == View(v1.nonce, v1.nonceExp, v.proofs, v.limits, v.tokens)
    requires (v1.nonce, v1.nonceExp) == FirstNonce(f, v, r, now, ns)
    ensures FromValidate(f, now, v1, r, RequiredNonce(f, v, r, now, ns), ns, v', resp)
  {
    hide HolderFault, DecisionFault, DecisionFor, ClientFault, FromProofMark, FirstNonce, ProofReplayFault,
      RequiredNonce, RateFault, ReplayFault, Steps, LimitOf, Dpop.CurrentNonce, DenyCode, IsBlank,
      NeedsProof, Dpop.ProofFault;
    if FaultBeforeProofs(f, v, r, now, ns).None? {
      ChecksRotate(f, v, r, now, ns);
      var n := NonceAfterGates(f, v, r, now, ns);
      ChecksProofMark(f, now, v, r, ns, v1.(nonce := n.0, nonceExp := n.1), v', resp);
      assert !f.cfg.nonceEnabled ==> v1.(nonce := n.0, nonceExp := n.1) == v1;
    } else {
      BadProof(f, now, v, r, ns, v1, v', resp);
    }
  }

  lemma BadProof(f: Fixed, now: int, v: View, r: Request, ns: Nonces, v1: View, v': View, resp: Response)
    requires Checks(f, v, r, now, ns, v', resp) && ClientFault(f.cfg, r).None? && NeedsProof(r)
    requires FaultBeforeProofs(f, v, r, now, ns).Some?
    requires v1 == View(v1.nonce, v1.nonceExp, v.proofs, v.limits, v.tokens)
    requires (v1.nonce, v1.nonceExp) == FirstNonce(f, v, r, now, ns)
    ensures DeniedAt(v1, FaultBeforeProofs(f, v, r, now, ns), v', resp)
  {
    hide ClientFault, Dpop.CurrentNonce, RequiredNonce, Dpop.ProofFault, DecisionFault, HolderFault, ReplayFault,
      NeedsProof, DenyCode;
  }

  lemma ChecksRotate(f: Fixed, v: View, r: Request, now: int, ns: Nonces)
    requires ClientFault(f.cfg, r).None? && NeedsProof(r) && FaultBeforeProofs(f, v, r, now, ns).None?
    ensures NonceAfterGates(f, v, r, now, ns) ==
      if f.cfg.nonceEnabled then (ns.rotated, now + f.cfg.nonceTtl) else FirstNonce(f, v, r, now, ns)
  {}

  lemma ChecksClient(f: Fixed, now: int, v: View, r: Request, ns: Nonces, v': View, resp: Response)
    requires Checks(f, v, r, now, ns, v', resp)
    ensures FromClient(f, now, v, r, ns, v', resp)
  {
    hide HolderFault, DecisionFault, DecisionFor, ClientFault, FromValidate, FromPolicy, ProofReplayFault,
      RateFault, ReplayFault, Steps, LimitOf, Dpop.CurrentNonce, DenyCode, IsBlank,
      NeedsProof, Dpop.ProofFault;
    if ClientFault(f.cfg, r).None? {
      if NeedsProof(r) {
        var n := FirstNonce(f, v, r, now, ns);
        ChecksValidate(f, now, v, r, ns, v.(nonce := n.0, nonceExp := n.1), v', resp);
      } else {
        NoProof(f, now, v, r, ns, v', resp);
        ChecksPolicy(f, now, v, r, ns, v, v', resp);
      }
    }
  }

  lemma NoProof(f: Fixed, now: int, v: View, r: Request, ns: Nonces, v': View, resp: Response)
    requires Checks(f, v, r, now, ns, v', resp) && ClientFault(f.cfg, r).None? && !NeedsProof(r)
    ensures FaultBeforeProofs(f, v, r, now, ns).None? && ProofReplayFault(v.proofs.mem, f.proofTtl, r, now).None?
    ensures v'.proofs == v.proofs && NonceAfterGates(f, v, r, now, ns) == (v.nonce, v.nonceExp)
  {
    hide Fault, Steps, ReplayFault, Consulted, NeedsProof;
  }

  // ---------- small steps ----------

  /** A request that takes at most `fuel` turns, with no other moving in between, gets `resp`. */
  ghost predicate Solo(f: Fixed, now: int, v: View, me: Caller, fuel: nat, v': View, resp: Response)
    decreases fuel
  {
    if me.stage.Answered? then v' == v && me.stage.resp == resp
    else fuel > 0 && exists coin, o, v1, stage1 ::
      Turns(f, now, v, me, coin, o, v1, stage1) && Solo(f, now, v1, me.(stage := stage1), fuel - 1, v', resp)
  }

  lemma SoloTurn(f: Fixed, now: int, v: View, me: Caller, coin: string, o: Outcome, v1: View, stage1: Stage,
                 fuel: nat, v': View, resp: Response)
    requires Turns(f, now, v, me, coin, o, v1, stage1) && Solo(f, now, v1, me.(stage := stage1), fuel, v', resp)
    ensures Solo(f, now, v, me, fuel + 1, v', resp)
  {}

  lemma Settled(f: Fixed, now: int, v: View, me: Caller, fuel: nat, fault: Option<int>, v': View, resp: Response)
    requires fault.Some? && DeniedAt(v, fault, v', resp) && me.stage == Answered(Deny(DenyCode(fault.value)))
    ensures Solo(f, now, v, me, fuel, v', resp)
  {}

  lemma SoloReply(f: Fixed, now: int, v: View, r: Request, ns: Nonces, v': View, resp: Response)
    requires FromReply(f, now, v, r, ns, v', resp)
    ensures Solo(f, now, v, Caller(r, AtReply), 1, v', resp)
  {
    hide ReplyTurn;
    var me := Caller(r, AtReply);
    assert Turns(f, now, v, me, ns.last, Replayed, v', Answered(resp));
    SoloTurn(f, now, v, me, ns.last, Replayed, v', Answered(resp), 0, v', resp);
  }

  /** The outcome of a mark, from the fault that it is answered with. */
  lemma MarkOutcome(h: History, ttl: int, max: int, jti: string, now: int, h': History) returns (o: Outcome)
    requires CacheTouched(true, h, ttl, max, jti, now, h')
    ensures if IsBlank(jti) then h' == h else Steps(h, ttl, max, Trim(jti), now, h', o)
    ensures !IsBlank(jti) ==> ReplayFault(h.mem, ttl, jti, now) == if o.Fresh? then None else Some(403)
  {
    o := Replayed;
    if !IsBlank(jti) {
      o :| Steps(h, ttl, max, Trim(jti), now, h', o);
    }
  }

  lemma SoloToken(f: Fixed, now: int, v: View, r: Request, ns: Nonces, v': View, resp: Response)
    requires FromToken(f, now, v, r, ns, v', resp)
    ensures Solo(f, now, v, Caller(r, AtToken), 2, v', resp)
  {
    var me, jti := Caller(r, AtToken), r.token.claims.jwtId;
    var o := MarkOutcome(v.tokens, f.tokenTtl, f.tokenMax, jti, now, v'.tokens);
    hide Steps, IsBlank, Solo, FromReply;
    var fault := ReplayFault(v.tokens.mem, f.tokenTtl, jti, now);
    var v1 := v.(tokens := v'.tokens);
    var stage := OrElse(fault, AtReply);
    assert Turns(f, now, v, me, "", o, v1, stage);
    if fault.Some? {
      Settled(f, now, v1, me.(stage := stage), 1, fault, v', resp);
    } else {
      SoloReply(f, now, v1, r, ns, v', resp);
    }
    SoloTurn(f, now, v, me, "", o, v1, stage, 1, v', resp);
  }

  lemma SoloLimit(f: Fixed, now: int, v: View, r: Request, ns: Nonces, v': View, resp: Response)
    requires FromLimit(f, now, v, r, ns, v', resp)
    ensures Solo(f, now, v, Caller(r, AtLimit), 3, v', resp)
  {
    hide Solo, FromToken, RateFault, Consulted, LimitOf;
    var me, q := Caller(r, AtLimit), LimitOf(f, r, now);
    var fault := RateFault(v.limits, q);
    var v1 := v.(limits := Consulted(true, v.limits, q));
    var stage := OrElse(fault, AtToken);
    assert Turns(f, now, v, me, "", Replayed, v1, stage);
    if fault.Some? {
      Settled(f, now, v1, me.(stage := stage), 2, fault, v', resp);
    } else {
      SoloToken(f, now, v1, r, ns, v', resp);
    }
    SoloTurn(f, now, v, me, "", Replayed, v1, stage, 2, v', resp);
  }

  lemma SoloPolicy(f: Fixed, now: int, v: View, r: Request, ns: Nonces, v': View, resp: Response)
    requires FromPolicy(f, now, v, r, ns, v', resp)
    ensures Solo(f, now, v, Caller(r, AtPolicy), 4, v', resp)
  {
    hide Solo, FromLimit, HolderFault, DecisionFault, DecisionFor;
    var me, fault := Caller(r, AtPolicy), StaticFault(f, r);
    var stage := OrElse(fault, AtLimit);
    assert Turns(f, now, v, me, "", Replayed, v, stage);
    if fault.Some? {
      Settled(f, now, v, me.(stage := stage), 3, fault, v', resp);
    } else {
      SoloLimit(f, now, v, r, ns, v', resp);
    }
    SoloTurn(f, now, v, me, "", Replayed, v, stage, 3, v', resp);
  }

  lemma SoloProofMark(f: Fixed, now: int, v: View, r: Request, at: int, ns: Nonces, v': View, resp: Response)
    requires FromProofMark(f, now, v, r, ns, v', resp)
    ensures Solo(f, now, v, Caller(r, AtProofMark(at)), 5, v', resp)
  {
    var me, jti := Caller(r, AtProofMark(at)), r.proof.jti;
    var o := MarkOutcome(v.proofs, f.proofTtl, f.proofMax, jti, now, v'.proofs);
    hide Steps, IsBlank, Solo, FromPolicy, ReplayFault;
    var fault := if IsBlank(jti) then None else ReplayFault(v.proofs.mem, f.proofTtl, jti, now);
    var v1 := v.(proofs := v'.proofs);
    var stage := OrElse(fault, AtPolicy);
    assert Turns(f, now, v, me, "", o, v1, stage);
    if fault.Some? {
      Settled(f, now, v1, me.(stage := stage), 4, fault, v', resp);
    } else {
      SoloPolicy(f, now, v1, r, ns, v', resp);
    }
    SoloTurn(f, now, v, me, "", o, v1, stage, 4, v', resp);
  }

  lemma SoloRotate(f: Fixed, now: int, v: View, r: Request, at: int, ns: Nonces, v': View, resp: Response)
    requires FromRotate(f, now, v, r, ns, v', resp)
    ensures Solo(f, now, v, Caller(r, AtRotate(at)), 6, v', resp)
  {
    hide Solo, FromProofMark;
    var me, v1 := Caller(r, AtRotate(at)), v.(nonce := ns.rotated, nonceExp := now + f.cfg.nonceTtl);
    assert Turns(f, now, v, me, ns.rotated, Replayed, v1, AtProofMark(at));
    SoloProofMark(f, now, v1, r, at, ns, v', resp);
    SoloTurn(f, now, v, me, ns.rotated, Replayed, v1, AtProofMark(at), 5, v', resp);
  }

  lemma {:induction false} MoreFuel(f: Fixed, now: int, v: View, me: Caller, fuel: nat, v': View, resp: Response)
    requires Solo(f, now, v, me, fuel, v', resp)
    ensures Solo(f, now, v, me, fuel + 1, v', resp)
    decreases fuel
  {
    hide Turns;
    if !me.stage.Answered? {
      var coin, o, v1, stage1 :|
        Turns(f, now, v, me, coin, o, v1, stage1) && Solo(f, now, v1, me.(stage := stage1), fuel - 1, v', resp);
      MoreFuel(f, now, v1, me.(stage := stage1), fuel - 1, v', resp);
      SoloTurn(f, now, v, me, coin, o, v1, stage1, fuel, v', resp);
    }
  }

  lemma SoloValidate(f: Fixed, now: int, v: View, r: Request, required: string, ns: Nonces, v': View, resp: Response)
    requires FromValidate(f, now, v, r, required, ns, v', resp)
    ensures Solo(f, now, v, Caller(r, AtValidate(required)), 7, v', resp)
  {
    hide Solo, FromProofMark, FromRotate, Dpop.ProofFault;
    var me := Caller(r, AtValidate(required));
    var fault := Dpop.ProofFault(r.proof, now, f.cfg.maxAge, f.cfg.skew, required);
    var stage := OrElse(fault, if f.cfg.nonceEnabled then AtRotate(now) else AtProofMark(now));
    assert Turns(f, now, v, me, "", Replayed, v, stage);
    if fault.Some? {
      Settled(f, now, v, me.(stage := stage), 6, fault, v', resp);
    } else if f.cfg.nonceEnabled {
      SoloRotate(f, now, v, r, now, ns, v', resp);
    } else {
      SoloProofMark(f, now, v, r, now, ns, v', resp);
      MoreFuel(f, now, v, me.(stage := stage), 5, v', resp);
    }
    SoloTurn(f, now, v, me, "", Replayed, v, stage, 6, v', resp);
  }

  lemma SoloNonce(f: Fixed, now: int, v: View, r: Request, ns: Nonces, v': View, resp: Response)
    requires FromNonce(f, now, v, r, ns, v', resp)
    ensures Solo(f, now, v, Caller(r, AtNonce), 8, v', resp)
  {
    hide Solo, FromValidate, Dpop.CurrentNonce;
    var me, n := Caller(r, AtNonce), Dpop.CurrentNonce(v.nonce, v.nonceExp, now, f.cfg.nonceTtl, ns.first);
    var v1 := v.(nonce := n.0, nonceExp := n.1);
    assert Turns(f, now, v, me, ns.first, Replayed, v1, AtValidate(n.0));
    SoloValidate(f, now, v1, r, n.0, ns, v', resp);
    SoloTurn(f, now, v, me, ns.first, Replayed, v1, AtValidate(n.0), 7, v', resp);
  }

  lemma SoloClient(f: Fixed, now: int, v: View, r: Request, ns: Nonces, v': View, resp: Response)
    requires FromClient(f, now, v, r, ns, v', resp)
    ensures exists fuel :: Solo(f, now, v, Caller(r, AtClient), fuel, v', resp)
  {
    hide Solo, FromValidate, FromPolicy, FromNonce, ClientFault, NeedsProof;
    var me, fault := Caller(r, AtClient), ClientFault(f.cfg, r);
    var stage := OrElse(fault, AfterClient(f, r));
    assert Turns(f, now, v, me, "", Replayed, v, stage);
    var fuel: nat := 8;
    if fault.Some? {
      Settled(f, now, v, me.(stage := stage), fuel, fault, v', resp);
    } else if !NeedsProof(r) {
      SoloPolicy(f, now, v, r, ns, v', resp);
      fuel := 4;
    } else if f.cfg.nonceEnabled {
      SoloNonce(f, now, v, r, ns, v', resp);
    } else {
      SoloValidate(f, now, v, r, "", ns, v', resp);
      fuel := 7;
    }
    SoloTurn(f, now, v, me, "", Replayed, v, stage, fuel, v', resp);
  }

  /** Turns of request `id` and of no other, one after the other. */
  ghost predicate IsSoloRun(f: Fixed, id: nat, ss: seq<System>, ls: seq<Label>) {
    && |ss| == |ls| + 1
    && (forall n :: 0 <= n < |ls| ==> ls[n].Turn? && ls[n].id == id)
    && (forall n :: 0 <= n < |ls| ==> Next(f, ss[n], ls[n], ss[n + 1]))
  }

  lemma {:induction false} SoloRuns(f: Fixed, s: System, id: nat, fuel: nat, v': View, resp: Response)
    returns (ss: seq<System>, ls: seq<Label>)
    requires id in s.callers && Solo(f, s.clock, s.view, s.callers[id], fuel, v', resp)
    ensures IsSoloRun(f, id, ss, ls) && ss[0] == s
    ensures ss[|ls|].view == v' && id in ss[|ls|].callers && ss[|ls|].callers[id].stage == Answered(resp)
    decreases fuel
  {
    hide Turns;
    var me := s.callers[id];
    if me.stage.Answered? {
      ss, ls := [s], [];
    } else {
      var coin, o, v1, stage1 :|
        && Turns(f, s.clock, s.view, me, coin, o, v1, stage1)
        && Solo(f, s.clock, v1, me.(stage := stage1), fuel - 1, v', resp);
      var s1 := TurnOf(f, s, id, coin, o, v1, stage1);
      var rest, labels := SoloRuns(f, s1, id, fuel - 1, v', resp);
      ss, ls := [s] + rest, [Turn(id, coin, o)] + labels;
      Prepended(f, id, s, Turn(id, coin, o), rest, labels);
    }
  }

  lemma TurnOf(f: Fixed, s: System, id: nat, coin: string, o: Outcome, v1: View, stage1: Stage) returns (s1: System)
    requires id in s.callers && Turns(f, s.clock, s.view, s.callers[id], coin, o, v1, stage1)
    ensures Next(f, s, Turn(id, coin, o), s1)
    ensures s1.clock == s.clock && s1.view == v1
    ensures id in s1.callers && s1.callers[id] == s.callers[id].(stage := stage1)
  {
    hide Turns;
    var me := s.callers[id];
    s1 := System(s.clock, v1, s.callers[id := me.(stage := stage1)],
                 if PassesNow(me, stage1) then s.passes + [Pass(id, me.stage.validatedAt, s.clock)] else s.passes,
                 if me.stage.AtToken? && stage1.AtReply? then s.grants + [Grant(id, s.clock)] else s.grants);
  }

  lemma Prepended(f: Fixed, id: nat, s: System, l: Label, ss: seq<System>, ls: seq<Label>)
    requires IsSoloRun(f, id, ss, ls) && l.Turn? && l.id == id && Next(f, s, l, ss[0])
    ensures IsSoloRun(f, id, [s] + ss, [l] + ls)
    ensures ([s] + ss)[0] == s && ([s] + ss)[|[l] + ls|] == ss[|ls|]
  {
    hide Next;
    forall n | 0 <= n < |[l] + ls| ensures Next(f, ([s] + ss)[n], ([l] + ls)[n], ([s] + ss)[n + 1]) {
      if n > 0 {
        assert Next(f, ss[n - 1], ls[n - 1], ss[n]);
      }
    }
  }

  /**
   What `Check` promises of a call is what its turns do when no other request moves in between: the stores and
   the answer are those of a run of the concurrent system, so every property of all runs holds of the calls.
   */
  lemma CheckIsARun(f: Fixed, s: System, id: nat, ns: Nonces, v': View, resp: Response)
    returns (ss: seq<System>, ls: seq<Label>)
    requires id in s.callers && s.callers[id].stage.AtClient?
    requires Checks(f, s.view, s.callers[id].request, s.clock, ns, v', resp)
    ensures IsSoloRun(f, id, ss, ls) && ss[0] == s
    ensures ss[|ls|].view == v' && id in ss[|ls|].callers && ss[|ls|].callers[id].stage == Answered(resp)
  {
    hide Checks, FromClient, Solo;
    var r := s.callers[id].request;
    ChecksClient(f, s.clock, s.view, r, ns, v', resp);
    SoloClient(f, s.clock, s.view, r, ns, v', resp);
    var fuel: nat :| Solo(f, s.clock, s.view, Caller(r, AtClient), fuel, v', resp);
    ss, ls := SoloRuns(f, s, id, fuel, v', resp);
  }
}
