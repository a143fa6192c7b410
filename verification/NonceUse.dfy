/**
 What the DPoP nonce adds under concurrency: with fresh nonces, two requests with one proof both pass the nonce
 check exactly when no nonce is made between their readings of it.
 */
module NonceUse {
  import opened Text
  import opened MemoryReplay
  import opened Server
  import opened Pipeline
  import Dpop

  predicate SameNonce(a: string, b: string) {
    EqualFold(Trim(a), Trim(b))
  }

  /** This step makes its coin the nonce. */
  predicate Draws(f: Fixed, s: System, l: Label) {
    && l.Turn? && l.id in s.callers
    && match s.callers[l.id].stage {
         case AtRotate(_) => true
         case AtNonce => Stale(s)
         case AtReply => f.cfg.nonceEnabled && Stale(s)
         case _ => false
       }
  }

  predicate Stale(s: System) {
    IsBlank(s.view.nonce) || s.clock > s.view.nonceExp
  }

  /**
   The nonces that a run makes are not blank, and different from one another and from the first after trimming
   and case folding.
   */
  ghost predicate FreshCoins(f: Fixed, ss: seq<System>, ls: seq<Label>)
    requires |ss| == |ls| + 1
  {
    && (forall i :: 0 <= i < |ls| && Draws(f, ss[i], ls[i]) ==>
          !IsBlank(ls[i].coin) && !SameNonce(ls[i].coin, ss[0].view.nonce))
    && (forall i, j :: 0 <= i < j < |ls| && Draws(f, ss[i], ls[i]) && Draws(f, ss[j], ls[j]) ==>
          !SameNonce(ls[i].coin, ls[j].coin))
  }

  /** One of the steps from `lo` to before `hi` drew this nonce. */
  ghost predicate DrawnIn(f: Fixed, ss: seq<System>, ls: seq<Label>, lo: nat, hi: nat, nonce: string)
    requires |ss| == |ls| + 1 && hi <= |ls|
  {
    exists i :: lo <= i < hi && Draws(f, ss[i], ls[i]) && ls[i].coin == nonce
  }

  // ---------- the nonce over a run ----------

  lemma NonceStep(f: Fixed, s: System, l: Label, s': System)
    requires Next(f, s, l, s')
    ensures s'.view.nonce == if Draws(f, s, l) then l.coin else s.view.nonce
  {
    hide Steps, ClientFault, HolderFault, DecisionFault, DecisionFor, RateFault, Consulted, LimitOf, Dpop.ProofFault,
      NeedsProof, DenyCode, OrElse, AfterClient;
  }

  /** The nonce is the first one, or was drawn. */
  lemma {:induction false} NonceOrigin(f: Fixed, ss: seq<System>, ls: seq<Label>, n: nat)
    requires IsInterleaving(f, ss, ls) && n <= |ls|
    ensures ss[n].view.nonce == ss[0].view.nonce || DrawnIn(f, ss, ls, 0, n, ss[n].view.nonce)
  {
    hide Next, Draws, Init;
    if n > 0 {
      NonceOrigin(f, ss, ls, n - 1);
      NonceStep(f, ss[n - 1], ls[n - 1], ss[n]);
    }
  }

  /** From `lo` on it stays the same, or has been drawn since. */
  lemma {:induction false} NonceSince(f: Fixed, ss: seq<System>, ls: seq<Label>, lo: nat, n: nat)
    requires IsInterleaving(f, ss, ls) && lo <= n <= |ls|
    ensures
      if forall j :: lo <= j < n ==> !Draws(f, ss[j], ls[j]) then ss[n].view.nonce == ss[lo].view.nonce
      else DrawnIn(f, ss, ls, lo, n, ss[n].view.nonce)
  {
    hide Next, Draws, Init;
    if lo < n {
      NonceSince(f, ss, ls, lo, n - 1);
      NonceStep(f, ss[n - 1], ls[n - 1], ss[n]);
    }
  }

  /** Nothing drawn later is the same as anything before. */
  lemma DrawnLater(f: Fixed, ss: seq<System>, ls: seq<Label>, lo: nat, hi: nat, old_: string, new_: string)
    requires |ss| == |ls| + 1 && lo <= hi <= |ls| && FreshCoins(f, ss, ls)
    requires old_ == ss[0].view.nonce || DrawnIn(f, ss, ls, 0, lo, old_)
    requires DrawnIn(f, ss, ls, lo, hi, new_)
    ensures !SameNonce(old_, new_)
  {
    hide EqualFold, Trim, SameNonce, IsBlank;
    var j :| lo <= j < hi && Draws(f, ss[j], ls[j]) && ls[j].coin == new_;
    if DrawnIn(f, ss, ls, 0, lo, old_) {
      var i :| 0 <= i < lo && Draws(f, ss[i], ls[i]) && ls[i].coin == old_;
    }
    SameNonceSymmetric(old_, new_);
  }

  lemma SameNonceSymmetric(a: string, b: string)
    ensures SameNonce(a, b) <==> SameNonce(b, a)
  {}

  /** Two nonces of a run are the same exactly when none was drawn in between. */
  lemma NonceChanges(f: Fixed, ss: seq<System>, ls: seq<Label>, lo: nat, n: nat)
    requires IsInterleaving(f, ss, ls) && lo <= n <= |ls| && FreshCoins(f, ss, ls)
    ensures SameNonce(ss[lo].view.nonce, ss[n].view.nonce) <==> forall j :: lo <= j < n ==> !Draws(f, ss[j], ls[j])
  {
    NonceOrigin(f, ss, ls, lo);
    NonceSince(f, ss, ls, lo, n);
    hide IsInterleaving, Draws, FreshCoins, DrawnIn;
    if j :| lo <= j < n && Draws(f, ss[j], ls[j]) {
      DrawnLater(f, ss, ls, lo, n, ss[lo].view.nonce, ss[n].view.nonce);
    }
  }

  // ---------- the way of one request ----------

  /** Requests only move forward. */
  function Rank(stage: Stage): nat {
    match stage
    case AtClient => 0
    case AtNonce => 1
    case AtValidate(_) => 2
    case AtRotate(_) => 3
    case AtProofMark(_) => 4
    case AtPolicy => 5
    case AtLimit => 6
    case AtToken => 7
    case AtReply => 8
    case Answered(_) => 9
  }

  lemma TurnRank(f: Fixed, now: int, v: View, me: Caller, coin: string, o: Outcome, v': View, stage': Stage)
    requires Turns(f, now, v, me, coin, o, v', stage')
    ensures Rank(me.stage) < Rank(stage')
  {
    hide Steps, ClientFault, HolderFault, DecisionFault, DecisionFor, RateFault, Consulted, LimitOf, Dpop.ProofFault,
      Dpop.CurrentNonce, NeedsProof, IsBlank, DenyCode;
  }

  lemma RankStep(f: Fixed, s: System, l: Label, s': System, id: nat)
    requires Next(f, s, l, s') && id in s.callers
    ensures id in s'.callers && s'.callers[id].request == s.callers[id].request
    ensures if l.Turn? && l.id == id then Rank(s.callers[id].stage) < Rank(s'.callers[id].stage)
            else s'.callers[id].stage == s.callers[id].stage
  {
    hide Turns, Rank;
    if l.Turn? {
      TurnRank(f, s.clock, s.view, s.callers[l.id], l.coin, l.outcome, s'.view, s'.callers[l.id].stage);
    }
  }

  lemma {:induction false} RankRun(f: Fixed, ss: seq<System>, ls: seq<Label>, id: nat, m: nat, n: nat)
    requires IsInterleaving(f, ss, ls) && m <= n <= |ls| && id in ss[m].callers
    ensures id in ss[n].callers && ss[n].callers[id].request == ss[m].callers[id].request
    ensures Rank(ss[m].callers[id].stage) <= Rank(ss[n].callers[id].stage)
    ensures Rank(ss[m].callers[id].stage) == Rank(ss[n].callers[id].stage) ==>
      ss[n].callers[id].stage == ss[m].callers[id].stage
  {
    hide Next, Rank, Init;
    if m < n {
      RankRun(f, ss, ls, id, m, n - 1);
      RankStep(f, ss[n - 1], ls[n - 1], ss[n], id);
    }
  }

  /** At step `n` it is the turn of request `id`. */
  ghost predicate TurnAt(ss: seq<System>, ls: seq<Label>, id: nat, n: nat)
    requires |ss| == |ls| + 1
  {
    n < |ls| && ls[n].Turn? && ls[n].id == id && id in ss[n].callers && id in ss[n + 1].callers
  }

  ghost predicate Reads(ss: seq<System>, ls: seq<Label>, id: nat, n: nat)
    requires |ss| == |ls| + 1
  {
    TurnAt(ss, ls, id, n) && ss[n].callers[id].stage.AtNonce?
  }

  ghost predicate Validates(ss: seq<System>, ls: seq<Label>, id: nat, n: nat)
    requires |ss| == |ls| + 1
  {
    TurnAt(ss, ls, id, n) && ss[n].callers[id].stage.AtValidate?
  }

  /** The validation succeeds. */
  ghost predicate Passes(ss: seq<System>, ls: seq<Label>, id: nat, n: nat)
    requires |ss| == |ls| + 1
  {
    Validates(ss, ls, id, n) && ss[n + 1].callers[id].stage.AtRotate?
  }

  ghost predicate Rotates(ss: seq<System>, ls: seq<Label>, id: nat, n: nat)
    requires |ss| == |ls| + 1
  {
    TurnAt(ss, ls, id, n) && ss[n].callers[id].stage.AtRotate?
  }

  lemma ReadStep(f: Fixed, s: System, l: Label, s': System)
    requires Next(f, s, l, s') && l.Turn? && s.callers[l.id].stage.AtNonce?
    ensures s'.callers[l.id].stage == AtValidate(s'.view.nonce)
    ensures IsBlank(s'.view.nonce) ==> Draws(f, s, l) && s'.view.nonce == l.coin
  {
    hide Steps;
  }

  /** A request validates against the nonce that it read, however long ago. */
  lemma ReadValidated(f: Fixed, ss: seq<System>, ls: seq<Label>, id: nat, m: nat, n: nat)
    requires IsInterleaving(f, ss, ls) && FreshCoins(f, ss, ls) && Reads(ss, ls, id, m) && Validates(ss, ls, id, n)
    ensures m < n && ss[n].callers[id].stage == AtValidate(ss[m + 1].view.nonce)
    ensures !IsBlank(ss[m + 1].view.nonce)
    ensures ss[n].callers[id].request == ss[m].callers[id].request
  {
    hide Next, Init, IsBlank, Draws;
    if n <= m {
      RankRun(f, ss, ls, id, n, m);
    } else {
      ReadStep(f, ss[m], ls[m], ss[m + 1]);
      RankRun(f, ss, ls, id, m, n);
      RankRun(f, ss, ls, id, m + 1, n);
    }
  }

  // ---------- the nonce check ----------

  lemma PassStep(f: Fixed, s: System, l: Label, s': System)
    requires Next(f, s, l, s') && l.Turn? && s.callers[l.id].stage.AtValidate? && s'.callers[l.id].stage.AtRotate?
    ensures Dpop.NonceFault(s.callers[l.id].request.proof.nonce, s.callers[l.id].stage.required) == None
  {
    hide Steps, Dpop.NonceFault, Dpop.IatFault;
  }

  lemma NonceMatches(actual: string, a: string, b: string)
    requires !IsBlank(a) && !IsBlank(b) && Dpop.NonceFault(actual, a) == None
    ensures Dpop.NonceFault(actual, b) == None <==> SameNonce(a, b)
  {
    hide IsBlank, Lower, Trim;
  }

  /**
   A proof that passed for one request passes the nonce check of another, which reads the nonce later, exactly
   when no nonce was made between the two readings.
   */
  lemma SecondPassesExactly(
    f: Fixed, ss: seq<System>, ls: seq<Label>, c: nat, i: nat, x: nat, d: nat, m: nat, n: nat)
    requires IsInterleaving(f, ss, ls) && FreshCoins(f, ss, ls)
    requires Reads(ss, ls, c, i) && Passes(ss, ls, c, x) && i < m && Reads(ss, ls, d, m) && Validates(ss, ls, d, n)
    requires ss[x].callers[c].request.proof.nonce == ss[n].callers[d].request.proof.nonce
    ensures Dpop.NonceFault(ss[n].callers[d].request.proof.nonce, ss[n].callers[d].stage.required) == None <==>
      forall j :: i < j <= m ==> !Draws(f, ss[j], ls[j])
  {
    ReadValidated(f, ss, ls, c, i, x);
    ReadValidated(f, ss, ls, d, m, n);
    PassStep(f, ss[x], ls[x], ss[x + 1]);
    NonceChanges(f, ss, ls, i + 1, m + 1);
    hide Next, Draws, FreshCoins, Init, Dpop.NonceFault, SameNonce, IsBlank;
    NonceMatches(ss[n].callers[d].request.proof.nonce, ss[i + 1].view.nonce, ss[m + 1].view.nonce);
  }

  lemma ReadBeforeRotated(f: Fixed, ss: seq<System>, ls: seq<Label>, c: nat, i: nat, k: nat)
    requires IsInterleaving(f, ss, ls) && Reads(ss, ls, c, i) && Rotates(ss, ls, c, k)
    ensures i < k
  {
    hide Next, Init;
    if k <= i {
      RankRun(f, ss, ls, c, k, i);
    }
  }

  /** One proof is validated for two requests only if the second has read its nonce before the first rotates it. */
  lemma ValidatedTwice(
    f: Fixed, ss: seq<System>, ls: seq<Label>, c: nat, i: nat, x: nat, k: nat, d: nat, m: nat, n: nat)
    requires IsInterleaving(f, ss, ls) && FreshCoins(f, ss, ls)
    requires Reads(ss, ls, c, i) && Passes(ss, ls, c, x) && Rotates(ss, ls, c, k)
    requires Reads(ss, ls, d, m) && Passes(ss, ls, d, n)
    requires ss[x].callers[c].request.proof == ss[n].callers[d].request.proof
    ensures m < k
  {
    hide IsInterleaving, FreshCoins;
    ReadBeforeRotated(f, ss, ls, c, i, k);
    if k < m {
      RotatedBefore(f, ss, ls, c, i, x, k, d, m, n);
    }
  }

  lemma RotatedBefore(
    f: Fixed, ss: seq<System>, ls: seq<Label>, c: nat, i: nat, x: nat, k: nat, d: nat, m: nat, n: nat)
    requires IsInterleaving(f, ss, ls) && FreshCoins(f, ss, ls)
    requires Reads(ss, ls, c, i) && Passes(ss, ls, c, x) && Rotates(ss, ls, c, k) && i < k < m
    requires Reads(ss, ls, d, m) && Validates(ss, ls, d, n)
    requires ss[x].callers[c].request.proof == ss[n].callers[d].request.proof
    ensures !Passes(ss, ls, d, n)
  {
    SecondPassesExactly(f, ss, ls, c, i, x, d, m, n);
    assert Draws(f, ss[k], ls[k]);
    PassMeansMatch(f, ss, ls, d, n);
  }

  lemma PassMeansMatch(f: Fixed, ss: seq<System>, ls: seq<Label>, id: nat, n: nat)
    requires IsInterleaving(f, ss, ls) && Validates(ss, ls, id, n)
    ensures Passes(ss, ls, id, n) ==>
      Dpop.NonceFault(ss[n].callers[id].request.proof.nonce, ss[n].callers[id].stage.required) == None
  {
    hide Next, Dpop.NonceFault;
    if Passes(ss, ls, id, n) {
      PassStep(f, ss[n], ls[n], ss[n + 1]);
    }
  }

  // ---------- two requests do pass ----------

  /** Turns that change neither the caches nor a history. */
  lemma QuietTurn(f: Fixed, s: System, id: nat, coin: string, o: Outcome, v': View, stage': Stage)
    requires id in s.callers && Turns(f, s.clock, s.view, s.callers[id], coin, o, v', stage')
    requires !s.callers[id].stage.AtProofMark? && !s.callers[id].stage.AtToken?
    ensures
      var callers := s.callers[id := s.callers[id].(stage := stage')];
      Next(f, s, Turn(id, coin, o), System(s.clock, v', callers, s.passes, s.grants))
  {
    hide Turns;
  }

  function Two(s: System, p: Request, q: Request, a: Stage, b: Stage, nonce: string, exp: int): System {
    s.(callers := map[0 := Caller(p, a), 1 := Caller(q, b)], view := s.view.(nonce := nonce, nonceExp := exp))
  }

  lemma TwoTurn(
    f: Fixed, s: System, p: Request, q: Request, a: Stage, b: Stage, a': Stage, b': Stage, id: nat, coin: string,
    nonce: string, exp: int, nonce': string, exp': int)
    requires (id == 0 && b' == b) || (id == 1 && a' == a)
    requires var me := if id == 0 then Caller(p, a) else Caller(q, b);
      && !me.stage.AtProofMark? && !me.stage.AtToken?
      && Turns(f, s.clock, s.view.(nonce := nonce, nonceExp := exp), me, coin, Replayed,
               s.view.(nonce := nonce', nonceExp := exp'), if id == 0 then a' else b')
    ensures Next(f, Two(s, p, q, a, b, nonce, exp), Turn(id, coin, Replayed), Two(s, p, q, a', b', nonce', exp'))
  {
    hide Turns, Next;
    var s1 := Two(s, p, q, a, b, nonce, exp);
    QuietTurn(f, s1, id, coin, Replayed, s.view.(nonce := nonce', nonceExp := exp'), if id == 0 then a' else b');
    assert s1.callers[id := s1.callers[id].(stage := if id == 0 then a' else b')]
      == map[0 := Caller(p, a'), 1 := Caller(q, b')];
  }

  /** A new request, and its checks on the client. */
  lemma Arrives(f: Fixed, s: System, id: nat, r: Request) returns (s1: System, s2: System)
    requires f.cfg.nonceEnabled && id !in s.callers && ClientFault(f.cfg, r).None? && NeedsProof(r)
    ensures Next(f, s, Arrive(id, r), s1) && Next(f, s1, Turn(id, "", Replayed), s2)
    ensures s2 == s.(callers := s.callers[id := Caller(r, AtNonce)])
  {
    hide ClientFault, NeedsProof, Turns;
    s1 := s.(callers := s.callers[id := Caller(r, AtClient)]);
    s2 := s.(callers := s.callers[id := Caller(r, AtNonce)]);
    ClientTurn(f, s1.clock, s1.view, r);
    QuietTurn(f, s1, id, "", Replayed, s1.view, AtNonce);
    assert s1.callers[id := Caller(r, AtNonce)] == s.callers[id := Caller(r, AtNonce)];
  }

  lemma ClientTurn(f: Fixed, now: int, v: View, r: Request)
    requires f.cfg.nonceEnabled && ClientFault(f.cfg, r).None? && NeedsProof(r)
    ensures Turns(f, now, v, Caller(r, AtClient), "", Replayed, v, AtNonce)
  {
    hide ClientFault, NeedsProof;
  }

  /** The first two requests of a new server have arrived, and the nonce has not been asked for yet. */
  lemma BothArrive(f: Fixed, s: System, p: Request, q: Request) returns (ss: seq<System>)
    requires Init(f, s) && f.cfg.nonceEnabled
    requires ClientFault(f.cfg, p).None? && NeedsProof(p) && ClientFault(f.cfg, q).None? && NeedsProof(q)
    ensures |ss| == 5 && ss[0] == s && ss[4] == Two(s, p, q, AtNonce, AtNonce, s.view.nonce, s.view.nonceExp)
    ensures Next(f, ss[0], Arrive(0, p), ss[1]) && Next(f, ss[1], Turn(0, "", Replayed), ss[2])
    ensures Next(f, ss[2], Arrive(1, q), ss[3]) && Next(f, ss[3], Turn(1, "", Replayed), ss[4])
  {
    hide Next, ClientFault, NeedsProof;
    var s1, s2 := Arrives(f, s, 0, p);
    var s3, s4 := Arrives(f, s2, 1, q);
    assert s4.callers == map[0 := Caller(p, AtNonce), 1 := Caller(q, AtNonce)];
    ss := [s, s1, s2, s3, s4];
  }

  /** Both read the nonce that the first of them makes, and both are validated against it. */
  lemma BothPass(f: Fixed, s: System, p: Request, q: Request, n: string) returns (ss: seq<System>)
    requires f.cfg.nonceEnabled && IsBlank(s.view.nonce) && !IsBlank(n) && f.cfg.nonceTtl >= 0
    requires Dpop.ProofFault(p.proof, s.clock, f.cfg.maxAge, f.cfg.skew, n) == None
    requires Dpop.ProofFault(q.proof, s.clock, f.cfg.maxAge, f.cfg.skew, n) == None
    ensures |ss| == 5 && ss[0] == Two(s, p, q, AtNonce, AtNonce, s.view.nonce, s.view.nonceExp)
    ensures Next(f, ss[0], Turn(0, n, Replayed), ss[1]) && Next(f, ss[1], Turn(1, "", Replayed), ss[2])
    ensures Next(f, ss[2], Turn(0, "", Replayed), ss[3]) && Next(f, ss[3], Turn(1, "", Replayed), ss[4])
    ensures ss[2] == Two(s, p, q, AtValidate(n), AtValidate(n), n, s.clock + f.cfg.nonceTtl)
    ensures ss[3] == Two(s, p, q, AtRotate(s.clock), AtValidate(n), n, s.clock + f.cfg.nonceTtl)
    ensures ss[4] == Two(s, p, q, AtRotate(s.clock), AtRotate(s.clock), n, s.clock + f.cfg.nonceTtl)
  {
    hide Next, Two, Dpop.ProofFault, IsBlank;
    var e, now := s.clock + f.cfg.nonceTtl, s.clock;
    TwoTurn(f, s, p, q, AtNonce, AtNonce, AtValidate(n), AtNonce, 0, n, s.view.nonce, s.view.nonceExp, n, e);
    TwoTurn(f, s, p, q, AtValidate(n), AtNonce, AtValidate(n), AtValidate(n), 1, "", n, e, n, e);
    TwoTurn(f, s, p, q, AtValidate(n), AtValidate(n), AtRotate(now), AtValidate(n), 0, "", n, e, n, e);
    TwoTurn(f, s, p, q, AtRotate(now), AtValidate(n), AtRotate(now), AtRotate(now), 1, "", n, e, n, e);
    ss := [Two(s, p, q, AtNonce, AtNonce, s.view.nonce, s.view.nonceExp), Two(s, p, q, AtValidate(n), AtNonce, n, e),
           Two(s, p, q, AtValidate(n), AtValidate(n), n, e), Two(s, p, q, AtRotate(now), AtValidate(n), n, e),
           Two(s, p, q, AtRotate(now), AtRotate(now), n, e)];
  }

  /**
   The exception is real: from the start of a server, two requests that read the nonce before either rotates it
   are both validated against it, whatever their proofs, and only the proof cache can tell a proof from its copy.
   */
  lemma NonceAdmitsTwo(f: Fixed, s: System, p: Request, q: Request, n: string) returns (ss: seq<System>, ls: seq<Label>)
    requires Init(f, s) && f.cfg.nonceEnabled && IsBlank(s.view.nonce) && !IsBlank(n) && f.cfg.nonceTtl >= 0
    requires ClientFault(f.cfg, p).None? && NeedsProof(p) && ClientFault(f.cfg, q).None? && NeedsProof(q)
    requires Dpop.ProofFault(p.proof, s.clock, f.cfg.maxAge, f.cfg.skew, n) == None
    requires Dpop.ProofFault(q.proof, s.clock, f.cfg.maxAge, f.cfg.skew, n) == None
    ensures IsInterleaving(f, ss, ls) && |ls| == 8 && ss[0] == s
    ensures Passes(ss, ls, 0, 6) && Passes(ss, ls, 1, 7)
    ensures ss[6].callers[0].request == p && ss[7].callers[1].request == q
  {
    hide Next, Init, ClientFault, NeedsProof, IsBlank, Dpop.ProofFault;
    var a := BothArrive(f, s, p, q);
    var b := BothPass(f, s, p, q, n);
    ls := [Arrive(0, p), Turn(0, "", Replayed), Arrive(1, q), Turn(1, "", Replayed),
           Turn(0, n, Replayed), Turn(1, "", Replayed), Turn(0, "", Replayed), Turn(1, "", Replayed)];
    ss := [a[0], a[1], a[2], a[3], b[0], b[1], b[2], b[3], b[4]];
    forall k | 0 <= k < 8 ensures Next(f, ss[k], ls[k], ss[k + 1]) {
      assert k == 0 || k == 1 || k == 2 || k == 3 || k == 4 || k == 5 || k == 6 || k == 7;
    }
  }
}
