/**
 When Redis refuses: only for an identifier that an earlier SET wrote no longer ago than the time to live, in every
 interleaving, so that an identifier is accepted again once its time is over.
 */
module RedisRefusal {
  import opened Text
  import opened MemoryReplay
  import opened RedisProtocol

  /** Step `k` is a SET of the identifier that was carried out and accepted, whether the caller learned of it or not. */
  ghost predicate Wrote(ss: seq<State>, ls: seq<Label>, k: nat, jti: string)
    requires |ss| == |ls| + 1
  {
    && k < |ls| && ls[k].Set? && ls[k].c in ss[k].callers && ss[k].callers[ls[k].c].jti == jti
    && (ls[k].fate.Lost?
        || (ls[k].fate.Ok? && ls[k].c in ss[k + 1].callers && ss[k + 1].callers[ls[k].c].stage == AtZadd))
  }

  /** Every key has the expiry time of some SET before. */
  ghost predicate Dated(cfg: Config, ss: seq<State>, ls: seq<Label>, n: nat)
    requires |ss| == |ls| + 1 && n <= |ls|
  {
    forall jti :: jti in ss[n].expiry ==>
      exists k: nat :: k < n && Wrote(ss, ls, k, jti) && ss[n].expiry[jti] == Ms(ss[k].clock) + cfg.TtlMs()
  }

  /** A key is new, or as before. */
  lemma ExpiryStep(cfg: Config, s: State, l: Label, s': State, jti: string)
    requires Next(cfg, s, l, s') && jti in s'.expiry
    ensures
      || (jti in s.expiry && s'.expiry[jti] == s.expiry[jti])
      || (l.Set? && l.c in s.callers && l.c in s'.callers && s.callers[l.c].jti == jti
          && s'.expiry[jti] == Ms(s.clock) + cfg.TtlMs()
          && (l.fate.Lost? || (l.fate.Ok? && s'.callers[l.c].stage == AtZadd)))
  {
    hide Marks, Lowest, Normal, NextVictim, FallEvents;
  }

  lemma {:induction false} RunDated(cfg: Config, ss: seq<State>, ls: seq<Label>, n: nat)
    requires IsInterleaving(cfg, ss, ls) && n <= |ls|
    ensures Dated(cfg, ss, ls, n)
  {
    hide Next;
    if n > 0 {
      RunDated(cfg, ss, ls, n - 1);
      forall jti | jti in ss[n].expiry
        ensures exists k: nat :: k < n && Wrote(ss, ls, k, jti) && ss[n].expiry[jti] == Ms(ss[k].clock) + cfg.TtlMs()
      {
        ExpiryStep(cfg, ss[n - 1], ls[n - 1], ss[n], jti);
        assert Wrote(ss, ls, n - 1, jti) || jti in ss[n - 1].expiry;
      }
    }
  }

  lemma RefusedStep(cfg: Config, s: State, l: Label, s': State)
    requires Next(cfg, s, l, s') && l.Set? && l.fate.Ok?
    ensures l.c in s.callers && l.c in s'.callers
    ensures s'.callers[l.c].stage == Done(false) ==>
      s.callers[l.c].jti in s.expiry && Ms(s.clock) <= s.expiry[s.callers[l.c].jti]
  {}

  /**
   A SET is answered by a refusal only if an earlier SET wrote the same identifier, no more than the time to live
   before in whole milliseconds.
   */
  lemma RefusedOnlyIfRecent(cfg: Config, ss: seq<State>, ls: seq<Label>, n: nat) returns (k: nat)
    requires IsInterleaving(cfg, ss, ls) && n < |ls| && ls[n].Set? && ls[n].fate.Ok?
    requires ls[n].c in ss[n + 1].callers && ss[n + 1].callers[ls[n].c].stage == Done(false)
    ensures ls[n].c in ss[n].callers && k < n && Wrote(ss, ls, k, ss[n].callers[ls[n].c].jti)
    ensures Ms(ss[n].clock) - Ms(ss[k].clock) <= cfg.TtlMs()
    ensures ss[n].clock - ss[k].clock < cfg.ttl + 1_000_000
  {
    RunDated(cfg, ss, ls, n);
    RefusedStep(cfg, ss[n], ls[n], ss[n + 1]);
    hide Next, Wrote;
    var jti := ss[n].callers[ls[n].c].jti;
    k :| k < n && Wrote(ss, ls, k, jti) && ss[n].expiry[jti] == Ms(ss[k].clock) + cfg.TtlMs();
    MillisApart(cfg, ss[k].clock, ss[n].clock);
  }

  lemma MillisApart(cfg: Config, before: int, now: int)
    requires cfg.Valid() && Ms(now) - Ms(before) <= cfg.TtlMs()
    ensures now - before < cfg.ttl + 1_000_000
  {}

  lemma SetOutcome(cfg: Config, s: State, l: Label, s': State)
    requires Next(cfg, s, l, s') && l.Set?
    ensures l.c in s'.callers
    ensures l.fate.Ok? ==> s'.callers[l.c].stage in {AtZadd, Done(false)}
    ensures !l.fate.Ok? ==> s'.callers[l.c].stage == AtFallback
  {
    hide Live;
  }

  /** An answered SET of an identifier that nobody wrote within the time to live is accepted. */
  lemma AcceptedWhenOver(cfg: Config, ss: seq<State>, ls: seq<Label>, n: nat)
    requires IsInterleaving(cfg, ss, ls) && n < |ls| && ls[n].Set? && ls[n].fate.Ok? && ls[n].c in ss[n].callers
    requires forall k: nat :: k < n && Wrote(ss, ls, k, ss[n].callers[ls[n].c].jti) ==>
      Ms(ss[n].clock) - Ms(ss[k].clock) > cfg.TtlMs()
    ensures ls[n].c in ss[n + 1].callers && ss[n + 1].callers[ls[n].c].stage == AtZadd
  {
    SetOutcome(cfg, ss[n], ls[n], ss[n + 1]);
    hide Next, Wrote;
    if ss[n + 1].callers[ls[n].c].stage == Done(false) {
      var k := RefusedOnlyIfRecent(cfg, ss, ls, n);
    }
  }

  /** The window in whole milliseconds is the time to live, up to a millisecond. */
  lemma WindowIsTtl(cfg: Config)
    requires cfg.Valid()
    ensures cfg.ttl - NANOS_PER_MILLI < cfg.Window() <= cfg.ttl
    ensures cfg.Window() == cfg.TtlMs() * 1_000_000
  {}
}
