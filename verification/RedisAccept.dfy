/**
 How often one identifier is accepted when service instances share one Redis and fall back to their own
 memory while it fails: once by SET NX and once per instance in any interval of the (millisecond) time to
 live, whatever the interleaving and the failures, as long as the identifier is not evicted.
 */
module RedisAccept {
  import opened Text
  import opened MemoryReplay
  import opened RedisProtocol

  /** Between log entries `i` and `n` the source of acceptance `i` evicted its identifier. */
  ghost predicate EvictedSince(log: seq<Event>, i: nat, n: nat)
    requires i < |log| && n <= |log|
  {
    exists e :: i < e < n && log[e].Evict? && log[e].jti == log[i].jti && log[e].source == log[i].source
  }

  /** What still prevents the source of acceptance `i` from accepting the identifier again. */
  ghost predicate Guarded(cfg: Config, s: State, i: nat)
    requires i < |s.log|
  {
    var a := s.log[i];
    EvictedSince(s.log, i, |s.log|) ||
    match a.source
    case Redis => a.jti in s.expiry && s.expiry[a.jti] >= Ms(a.at) + cfg.TtlMs()
    case Fallback(k) =>
      && k in s.mems
      && (a.at + cfg.ttl < s.clock || (a.jti in s.mems[k].items && s.mems[k].items[a.jti] >= a.at))
  }

  ghost predicate AllGuarded(cfg: Config, s: State) {
    forall i :: 0 <= i < |s.log| && s.log[i].Accept? ==> Guarded(cfg, s, i)
  }

  predicate Timed(s: State) {
    && (forall i :: 0 <= i < |s.log| ==> s.log[i].at <= s.clock)
    && (forall i, j :: 0 <= i < j < |s.log| ==> s.log[i].at <= s.log[j].at)
  }

  /** Two acceptances of one identifier by one source are more than the window apart, or it was evicted in between. */
  ghost predicate Separated(cfg: Config, log: seq<Event>) {
    forall i, j {:trigger EvictedSince(log, i, j)} ::
      && 0 <= i < j < |log| && log[i].Accept? && log[j].Accept?
      && log[i].jti == log[j].jti && log[i].source == log[j].source ==>
        log[j].at > log[i].at + cfg.Window() || EvictedSince(log, i, j)
  }

  predicate KnownSources(s: State) {
    forall i :: 0 <= i < |s.log| && s.log[i].Accept? ==>
      s.log[i].source.Redis? || s.log[i].source.instance in s.mems
  }

  ghost predicate Inv(cfg: Config, s: State) {
    cfg.Valid() && AllGuarded(cfg, s) && Timed(s) && Separated(cfg, s.log) && KnownSources(s)
  }

  // ---------- the log only grows ----------

  lemma EvictedStays(log: seq<Event>, more: seq<Event>, i: nat, n: nat)
    requires i < |log| && n <= |log|
    ensures EvictedSince(log + more, i, n) <==> EvictedSince(log, i, n)
    ensures EvictedSince(log, i, |log|) ==> EvictedSince(log + more, i, |log + more|)
  {
    assert forall e :: 0 <= e < |log| ==> (log + more)[e] == log[e];
    if EvictedSince(log, i, n) {
      var e :| i < e < n && log[e].Evict? && log[e].jti == log[i].jti && log[e].source == log[i].source;
      assert (log + more)[e] == log[e];
    }
    if EvictedSince(log, i, |log|) {
      var e :| i < e < |log| && log[e].Evict? && log[e].jti == log[i].jti && log[e].source == log[i].source;
      assert (log + more)[e] == log[e];
    }
  }

  /** Recording an eviction keeps the log separated and every account of other identifiers. */
  lemma SeparatedWithEvict(cfg: Config, log: seq<Event>, e: Event)
    requires Separated(cfg, log) && e.Evict?
    ensures Separated(cfg, log + [e])
  {
    var log' := log + [e];
    forall i, j | 0 <= i < j < |log'| && log'[i].Accept? && log'[j].Accept? && log'[i].jti == log'[j].jti
                  && log'[i].source == log'[j].source && log'[j].at <= log'[i].at + cfg.Window()
      ensures EvictedSince(log', i, j)
    {
      EvictedStays(log, [e], i, j);
    }
  }

  lemma SeparatedWithAccept(cfg: Config, log: seq<Event>, a: Event)
    requires Separated(cfg, log) && a.Accept?
    requires forall i :: 0 <= i < |log| && log[i].Accept? && log[i].jti == a.jti && log[i].source == a.source ==>
      a.at > log[i].at + cfg.Window() || EvictedSince(log, i, |log|)
    ensures Separated(cfg, log + [a])
  {
    var log' := log + [a];
    forall i, j | 0 <= i < j < |log'| && log'[i].Accept? && log'[j].Accept? && log'[i].jti == log'[j].jti
                  && log'[i].source == log'[j].source && log'[j].at <= log'[i].at + cfg.Window()
      ensures EvictedSince(log', i, j)
    {
      EvictedStays(log, [a], i, j);
    }
  }

  /** A logged acceptance stays guarded when the guard itself is kept or an eviction is recorded. */
  lemma GuardCarries(cfg: Config, s: State, s': State, i: nat, more: seq<Event>)
    requires i < |s.log| && s'.log == s.log + more && s.log[i].Accept? && Guarded(cfg, s, i)
    requires s.clock <= s'.clock
    requires s.log[i].source.Redis? ==>
      (s.log[i].jti in s.expiry ==> s.log[i].jti in s'.expiry && s'.expiry[s.log[i].jti] >= s.expiry[s.log[i].jti])
      || EvictedSince(s'.log, i, |s'.log|)
    requires s.log[i].source.Fallback? ==> s'.mems == s.mems
    ensures Guarded(cfg, s', i)
  {
    EvictedStays(s.log, more, i, |s.log|);
    assert s'.log[i] == s.log[i];
  }

  lemma QuietStep(cfg: Config, s: State, l: Label, s': State)
    requires Inv(cfg, s) && Next(cfg, s, l, s')
    requires !l.Set? && !l.Fall? && !l.Del?
    ensures Inv(cfg, s')
  {
    assert s'.log == s.log + [];
    forall i | 0 <= i < |s'.log| && s'.log[i].Accept? ensures Guarded(cfg, s', i) {
      GuardCarries(cfg, s, s', i, []);
    }
  }

  /** What a DEL adds to the log: nothing if it did not run. */
  function DelEvents(s: State, l: Label): seq<Event>
    requires l.Del? && CallerAt(s, l)
  {
    if l.fate.NotRun? then [] else [Evict(s.callers[l.c].stage.victims[0], s.clock, Redis)]
  }

  lemma DelGuards(cfg: Config, s: State, l: Label, s': State, i: nat)
    requires Inv(cfg, s) && Next(cfg, s, l, s') && l.Del?
    requires i < |s.log| && s.log[i].Accept?
    ensures Guarded(cfg, s', i)
  {
    var more := DelEvents(s, l);
    assert s'.log == s.log + more;
    if more != [] && s.log[i].source.Redis? && s.log[i].jti == more[0].jti {
      assert s'.log[|s.log|] == more[0] && s'.log[i] == s.log[i];
      assert EvictedSince(s'.log, i, |s'.log|);
    }
    GuardCarries(cfg, s, s', i, more);
  }

  lemma DelStep(cfg: Config, s: State, l: Label, s': State)
    requires Inv(cfg, s) && Next(cfg, s, l, s') && l.Del?
    ensures Inv(cfg, s')
  {
    var more := DelEvents(s, l);
    assert s'.log == s.log + more;
    forall i | 0 <= i < |s'.log| && s'.log[i].Accept? ensures Guarded(cfg, s', i) {
      DelGuards(cfg, s, l, s', i);
    }
    if more != [] {
      SeparatedWithEvict(cfg, s.log, more[0]);
    }
  }

  // ---------- SET ----------

  /** A key that is not live was set more than the window ago. */
  lemma NotLive(cfg: Config, at: int, clock: int, expiry: int)
    requires cfg.Valid() && expiry >= Ms(at) + cfg.TtlMs() && Ms(clock) > expiry
    ensures clock > at + cfg.Window()
  {}

  lemma SetStep(cfg: Config, s: State, l: Label, s': State)
    requires Inv(cfg, s) && Next(cfg, s, l, s') && l.Set?
    ensures Inv(cfg, s')
  {
    var jti := s.callers[l.c].jti;
    var more := s'.log[|s.log|..];
    assert s'.log == s.log + more;
    forall i | 0 <= i < |s'.log| && s'.log[i].Accept? ensures Guarded(cfg, s', i) {
      if i < |s.log| {
        assert s'.log[i] == s.log[i] && Guarded(cfg, s, i);
        GuardCarries(cfg, s, s', i, more);
      }
    }
    if more != [] {
      forall i | 0 <= i < |s.log| && s.log[i].Accept? && s.log[i].jti == jti && s.log[i].source == Redis
        ensures s.clock > s.log[i].at + cfg.Window() || EvictedSince(s.log, i, |s.log|)
      {
        assert Guarded(cfg, s, i);
        if !EvictedSince(s.log, i, |s.log|) {
          NotLive(cfg, s.log[i].at, s.clock, s.expiry[jti]);
        }
      }
      SeparatedWithAccept(cfg, s.log, more[0]);
    }
  }

  // ---------- the fallback ----------

  /** The accounts of one fallback cache after it evicted `v` and before it accepted. */
  lemma FallGuards(cfg: Config, s: State, l: Label, s': State, i: nat)
    requires Inv(cfg, s) && Next(cfg, s, l, s') && l.Fall?
    requires i < |s'.log| && s'.log[i].Accept?
    ensures Guarded(cfg, s', i)
  {
    var me := s.callers[l.c];
    var more := FallEvents(me, s.clock, l.outcome);
    if i < |s.log| {
      var a := s.log[i];
      assert s'.log[i] == a && Guarded(cfg, s, i);
      EvictedStays(s.log, more, i, |s.log|);
      if a.source == Fallback(me.instance) {
        if l.outcome.Fresh? && l.outcome.victim == Some(a.jti) {
          assert s'.log[|s.log|] == Evict(a.jti, s.clock, a.source);
          assert EvictedSince(s'.log, i, |s'.log|);
        }
      }
    } else {
      assert s'.log[i] == Accept(me.jti, s.clock, Fallback(me.instance));
      assert me.jti in s'.mems[me.instance].items;
    }
  }

  /** A fallback cache that accepts an identifier accepted it last more than `ttl` ago, or has evicted it. */
  lemma FallSeparates(cfg: Config, s: State, l: Label, s': State)
    requires Inv(cfg, s) && Next(cfg, s, l, s') && l.Fall? && l.outcome.Fresh?
    ensures Separated(cfg, s'.log)
  {
    var me := s.callers[l.c];
    var source := Fallback(me.instance);
    var p := Purged(s.mems[me.instance], cfg.ttl, s.clock);
    var log1 := if l.outcome.victim.None? then s.log else s.log + [Evict(l.outcome.victim.value, s.clock, source)];
    assert s'.log == log1 + [Accept(me.jti, s.clock, source)];
    if l.outcome.victim.Some? {
      SeparatedWithEvict(cfg, s.log, log1[|s.log|]);
    }
    forall i | 0 <= i < |log1| && log1[i].Accept? && log1[i].jti == me.jti && log1[i].source == source
      ensures s.clock > log1[i].at + cfg.Window() || EvictedSince(log1, i, |log1|)
    {
      assert log1[i] == s.log[i] && Guarded(cfg, s, i);
      EvictedStays(s.log, log1[|s.log|..], i, |s.log|);
      assert log1 == s.log + log1[|s.log|..];
      assert me.jti !in p.items;
    }
    SeparatedWithAccept(cfg, log1, Accept(me.jti, s.clock, source));
  }

  lemma FallStep(cfg: Config, s: State, l: Label, s': State)
    requires Inv(cfg, s) && Next(cfg, s, l, s') && l.Fall?
    ensures Inv(cfg, s')
  {
    forall i | 0 <= i < |s'.log| && s'.log[i].Accept? ensures Guarded(cfg, s', i) {
      FallGuards(cfg, s, l, s', i);
    }
    if l.outcome.Fresh? {
      FallSeparates(cfg, s, l, s');
    } else {
      assert s'.log == s.log;
    }
  }

  lemma StepInv(cfg: Config, s: State, l: Label, s': State)
    requires Inv(cfg, s) && Next(cfg, s, l, s')
    ensures Inv(cfg, s')
  {
    match l
    case Set(_, _) => SetStep(cfg, s, l, s');
    case Fall(_, _) => FallStep(cfg, s, l, s');
    case Del(_, _) => DelStep(cfg, s, l, s');
    case _ => QuietStep(cfg, s, l, s');
  }

  lemma {:induction false} RunInv(cfg: Config, ss: seq<State>, ls: seq<Label>, n: nat)
    requires IsInterleaving(cfg, ss, ls) && n <= |ls|
    ensures Inv(cfg, ss[n]) && ss[n].mems.Keys == ss[0].mems.Keys
  {
    if n > 0 {
      RunInv(cfg, ss, ls, n - 1);
      StepInv(cfg, ss[n - 1], ls[n - 1], ss[n]);
    }
  }

  // ---------- counting ----------

  /** The acceptances of `jti` at times from `from` to `from` plus the window, both ends included. */
  function AcceptedIn(cfg: Config, log: seq<Event>, jti: string, from: int): set<nat> {
    set i: nat | 0 <= i < |log| && log[i].Accept? && log[i].jti == jti && from <= log[i].at <= from + cfg.Window()
  }

  ghost predicate EvictedIn(cfg: Config, log: seq<Event>, jti: string, from: int) {
    exists e :: 0 <= e < |log| && log[e].Evict? && log[e].jti == jti && from <= log[e].at <= from + cfg.Window()
  }

  lemma {:induction false} ImageSize(log: seq<Event>, ids: set<nat>, sources: set<Source>)
    requires forall i :: i in ids ==> i < |log| && log[i].source in sources
    requires forall i, j :: i in ids && j in ids && i != j ==> log[i].source != log[j].source
    ensures |ids| <= |sources|
    decreases ids
  {
    if ids != {} {
      var i :| i in ids;
      ImageSize(log, ids - {i}, sources - {log[i].source});
    }
  }

  function Sources(instances: set<nat>): set<Source> {
    {Redis} + set k | k in instances :: Fallback(k)
  }

  lemma {:induction false} SourcesSize(instances: set<nat>)
    ensures |Sources(instances)| == |instances| + 1
    decreases instances
  {
    if instances != {} {
      var k :| k in instances;
      SourcesSize(instances - {k});
      assert Sources(instances) == Sources(instances - {k}) + {Fallback(k)};
    } else {
      assert Sources(instances) == {Redis};
    }
  }

  lemma DistinctSources(cfg: Config, s: State, jti: string, from: int, i: nat, j: nat)
    requires Inv(cfg, s)
    requires i in AcceptedIn(cfg, s.log, jti, from) && j in AcceptedIn(cfg, s.log, jti, from) && i < j
    ensures s.log[i].source != s.log[j].source || EvictedIn(cfg, s.log, jti, from)
  {
    if EvictedSince(s.log, i, j) {
      var e :| i < e < j && s.log[e].Evict? && s.log[e].jti == s.log[i].jti && s.log[e].source == s.log[i].source;
      assert s.log[i].at <= s.log[e].at <= s.log[j].at;
      assert EvictedIn(cfg, s.log, jti, from);
    }
  }

  /**
   With `n` instances on one Redis, under any interleaving and any failures, an identifier that is not
   evicted meanwhile is accepted at most `n + 1` times in an interval of the window's length.
   */
  lemma AcceptedAtMostOncePerSource(cfg: Config, ss: seq<State>, ls: seq<Label>, n: nat, jti: string, from: int)
    requires IsInterleaving(cfg, ss, ls) && n <= |ls|
    requires !EvictedIn(cfg, ss[n].log, jti, from)
    ensures |AcceptedIn(cfg, ss[n].log, jti, from)| <= |ss[0].mems| + 1
  {
    RunInv(cfg, ss, ls, n);
    var s := ss[n];
    var ids := AcceptedIn(cfg, s.log, jti, from);
    forall i, j | i in ids && j in ids && i != j ensures s.log[i].source != s.log[j].source {
      if i < j {
        DistinctSources(cfg, s, jti, from, i, j);
      } else {
        DistinctSources(cfg, s, jti, from, j, i);
      }
    }
    SourcesSize(s.mems.Keys);
    assert |s.mems.Keys| == |ss[0].mems.Keys|;
    forall i | i in ids ensures s.log[i].source in Sources(s.mems.Keys) {
      var source := s.log[i].source;
      assert source.Redis? || source.instance in s.mems;
    }
    ImageSize(s.log, ids, Sources(s.mems.Keys));
  }

  // ---------- Redis never fails ----------

  predicate NoneFallen(callers: map<nat, Caller>) {
    forall c :: c in callers ==> !callers[c].stage.AtFallback?
  }

  predicate AllFromRedis(log: seq<Event>) {
    forall i :: 0 <= i < |log| ==> log[i].source.Redis?
  }

  predicate NeverFalls(s: State) {
    NoneFallen(s.callers) && AllFromRedis(s.log)
  }

  lemma NextVictimStage(victims: seq<string>)
    ensures NextVictim(victims).Done? || NextVictim(victims).AtDel?
  {}

  lemma NobodyFalls(cfg: Config, s: State, l: Label, s': State)
    requires NeverFalls(s) && Next(cfg, s, l, s') && (l.Set? ==> l.fate.Ok?) && !l.Tick?
    ensures l.c in s'.callers && s'.callers == s.callers[l.c := s'.callers[l.c]]
    ensures !s'.callers[l.c].stage.AtFallback?
  {
    match l
    case Zrange(_, _, victims) => NextVictimStage(victims);
    case Zrem(c, _) => NextVictimStage(s.callers[c].stage.victims[1..]);
    case _ =>
  }

  lemma LogsFromRedis(cfg: Config, s: State, l: Label, s': State)
    requires NeverFalls(s) && Next(cfg, s, l, s')
    ensures AllFromRedis(s'.log)
  {
    match l
    case Del(_, _) => assert s'.log == s.log + DelEvents(s, l);
    case Set(c, _) => assert s'.log == s.log || s'.log == s.log + [Accept(s.callers[c].jti, s.clock, Redis)];
    case _ => assert s'.log == s.log;
  }

  lemma NeverFallsStep(cfg: Config, s: State, l: Label, s': State)
    requires NeverFalls(s) && Next(cfg, s, l, s') && (l.Set? ==> l.fate.Ok?)
    ensures NeverFalls(s')
  {
    LogsFromRedis(cfg, s, l, s');
    if !l.Tick? {
      NobodyFalls(cfg, s, l, s');
    }
  }

  lemma {:induction false} NeverFallsRun(cfg: Config, ss: seq<State>, ls: seq<Label>, n: nat)
    requires IsInterleaving(cfg, ss, ls) && n <= |ls|
    requires forall k :: 0 <= k < |ls| && ls[k].Set? ==> ls[k].fate.Ok?
    ensures NeverFalls(ss[n])
  {
    if n > 0 {
      NeverFallsRun(cfg, ss, ls, n - 1);
      NeverFallsStep(cfg, ss[n - 1], ls[n - 1], ss[n]);
    }
  }

  /** While no SET fails, all instances together accept an identifier at most once per window. */
  lemma AcceptedAtMostOnce(cfg: Config, ss: seq<State>, ls: seq<Label>, n: nat, jti: string, from: int)
    requires IsInterleaving(cfg, ss, ls) && n <= |ls|
    requires forall k :: 0 <= k < |ls| && ls[k].Set? ==> ls[k].fate.Ok?
    requires !EvictedIn(cfg, ss[n].log, jti, from)
    ensures |AcceptedIn(cfg, ss[n].log, jti, from)| <= 1
  {
    RunInv(cfg, ss, ls, n);
    NeverFallsRun(cfg, ss, ls, n);
    var s := ss[n];
    var ids := AcceptedIn(cfg, s.log, jti, from);
    forall i, j | i in ids && j in ids && i != j ensures s.log[i].source != s.log[j].source {
      if i < j {
        DistinctSources(cfg, s, jti, from, i, j);
      } else {
        DistinctSources(cfg, s, jti, from, j, i);
      }
    }
    ImageSize(s.log, ids, {Redis});
  }
}
