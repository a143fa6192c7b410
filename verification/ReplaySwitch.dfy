/**
 The replay cache with a Redis backend: a call goes to Redis, and to the in-memory fallback of the instance when
 the SET fails. A call that nothing interrupts is a run of the shared protocol.
 */
module ReplaySwitch {
  import opened Text
  import opened MemoryReplay
  import opened RedisProtocol
  import opened RedisBound
  import opened RedisBackend

  /** A SET whose reply is lost may have been carried out. */
  function AfterFailedSet(cfg: Config, fate: Fate, k: Keys, jti: string, now: int): Keys {
    if fate.Lost? && cfg.TtlMs() > 0 && !Alive(k, jti, now) then
      k.(expiry := k.expiry[jti := Ms(now) + cfg.TtlMs()])
    else k
  }

  /** What one call does to Redis and to the fallback, given what becomes of its SET. */
  ghost predicate Switches(
    cfg: Config, fate: Fate, k: Keys, h: History, jti: string, now: int, score: int,
    k': Keys, h': History, r: MarkResult)
  {
    if fate.Ok? && cfg.TtlMs() > 0 then
      && h' == h && !r.MissingJti?
      && SerialMark(cfg, k, jti, now, score, k', r.Marked?)
    else
      && k' == AfterFailedSet(cfg, fate, k, jti, now)
      && exists o :: Steps(h, cfg.ttl, cfg.max, jti, now, h', o) && r == if o.Fresh? then Marked else ReplayDetected
  }

  class SharedReplayCache {
    const cfg: Config
    const redis: RedisStore
    const fallback: ReplayCache

    ghost predicate Valid()
      reads fallback
    {
      cfg.Valid() && fallback.Valid() && fallback.ttl == cfg.ttl && fallback.max == cfg.max
    }

    /** The two settings fall back to defaults, for the backend and for the fallback alike. */
    constructor (ttl: int, max: int, redis: RedisStore, now: int)
      ensures Valid() && Starts(fallback.Past()) && fallback.clock == now && fresh(fallback) && this.redis == redis
      ensures cfg == Config(if ttl <= 0 then DEFAULT_TTL else ttl, if max <= 0 then DEFAULT_MAX else max)
    {
      cfg := Config(if ttl <= 0 then DEFAULT_TTL else ttl, if max <= 0 then DEFAULT_MAX else max);
      this.redis := redis;
      fallback := new ReplayCache(ttl, max, now);
    }

    method MarkIfNew(jti: string, now: int, score: int, fate: Fate) returns (r: MarkResult)
      requires Valid() && fallback.clock <= now && forall m :: m in redis.index ==> !IsBlank(m)
      modifies redis, fallback
      ensures Valid() && forall m :: m in redis.index ==> !IsBlank(m)
      ensures r.MissingJti? <==> IsBlank(jti)
      ensures r.MissingJti? ==> redis.Contents() == old(redis.Contents()) && fallback.Past() == old(fallback.Past())
      ensures !r.MissingJti? ==>
        Switches(cfg, fate, old(redis.Contents()), old(fallback.Past()), Trim(jti), now, score,
                 redis.Contents(), fallback.Past(), r)
    {
      hide MemoryReplay.Inv, SerialMark, Steps, Alive;
      if Trim(jti) == "" {
        return MissingJti;
      }
      TrimIsTight(jti);
      var normalized := Trim(jti);
      var answer := MarkInRedis(normalized, now, score, fate);
      if answer.None? {
        r := fallback.MarkIfNew(normalized, now);
        return;
      }
      return if answer.value then Marked else ReplayDetected;
    }

    /** The call to Redis; no value is an error. */
    method MarkInRedis(jti: string, now: int, score: int, fate: Fate) returns (answer: Option<bool>)
      requires cfg.Valid() && Normal(jti) && forall m :: m in redis.index ==> !IsBlank(m)
      modifies redis
      ensures forall m :: m in redis.index ==> !IsBlank(m)
      ensures answer.Some? <==> fate.Ok? && cfg.TtlMs() > 0
      ensures answer.Some? ==> SerialMark(cfg, old(redis.Contents()), jti, now, score, redis.Contents(), answer.value)
      ensures answer.None? ==> redis.Contents() == AfterFailedSet(cfg, fate, old(redis.Contents()), jti, now)
    {
      hide SerialMark;
      if fate.Ok? {
        answer := redis.MarkIfNew(cfg, jti, now, score);
        return;
      }
      if fate.Lost? && cfg.TtlMs() > 0 {
        var isNil := redis.SetIfAbsent(jti, now, cfg.TtlMs());
      }
      return None;
    }
  }

  // ---------- a call is a run of the protocol ----------

  /** Steps of caller `c` and of no other, one after the other. */
  ghost predicate IsSoloRun(cfg: Config, c: nat, ss: seq<State>, ls: seq<Label>) {
    && |ss| == |ls| + 1
    && (forall n :: 0 <= n < |ls| ==> !ls[n].Tick? && !ls[n].Begin? && ls[n].c == c)
    && (forall n :: 0 <= n < |ls| ==> Next(cfg, ss[n], ls[n], ss[n + 1]))
  }

  /** What a caller leaves behind: the keys, the fallback caches of the instances, and its answer. */
  datatype End = End(keys: Keys, mems: map<nat, Mem>, accepted: bool)

  /** From `s`, caller `c` alone gets to this end. */
  ghost predicate Reaches(cfg: Config, c: nat, s: State, end: End) {
    exists ss: seq<State>, ls: seq<Label> :: EndsWith(cfg, c, ss, ls, s, end)
  }

  ghost predicate EndsWith(cfg: Config, c: nat, ss: seq<State>, ls: seq<Label>, s: State, end: End) {
    && IsSoloRun(cfg, c, ss, ls) && ss[0] == s
    && var t := ss[|ls|];
       && End(Keys(t.expiry, t.index), t.mems, end.accepted) == end
       && c in t.callers && t.callers[c].stage == RedisProtocol.Done(end.accepted)
  }

  lemma Finished(cfg: Config, c: nat, s: State, accepted: bool)
    requires c in s.callers && s.callers[c].stage == RedisProtocol.Done(accepted)
    ensures Reaches(cfg, c, s, End(Keys(s.expiry, s.index), s.mems, accepted))
  {
    assert EndsWith(cfg, c, [s], [], s, End(Keys(s.expiry, s.index), s.mems, accepted));
  }

  lemma OneStep(cfg: Config, c: nat, s: State, l: Label, t: State, end: End)
    requires Next(cfg, s, l, t) && !l.Tick? && !l.Begin? && l.c == c
    requires Reaches(cfg, c, t, end)
    ensures Reaches(cfg, c, s, end)
  {
    hide Next;
    var ss, ls :| EndsWith(cfg, c, ss, ls, t, end);
    forall n | 0 <= n < |[l] + ls| ensures Next(cfg, ([s] + ss)[n], ([l] + ls)[n], ([s] + ss)[n + 1]) {
      if n > 0 {
        assert Next(cfg, ss[n - 1], ls[n - 1], ss[n]);
      }
    }
    assert EndsWith(cfg, c, [s] + ss, [l] + ls, s, end);
  }

  lemma DelNext(cfg: Config, c: nat, s: State, victims: seq<string>) returns (t: State)
    requires c in s.callers && s.callers[c].stage == AtDel(victims) && victims != []
    ensures Next(cfg, s, Del(c, Fate.Ok), t) && t.mems == s.mems
    ensures c in t.callers && t.callers[c].stage == AtZrem(victims)
    ensures t.expiry == s.expiry - {victims[0]} && t.index == s.index
  {
    t := At(s, c, AtZrem(victims)).(
      expiry := s.expiry - {victims[0]},
      log := s.log + [Event.Evict(victims[0], s.clock, Redis)]);
  }

  lemma ZremNext(cfg: Config, c: nat, s: State, victims: seq<string>) returns (t: State)
    requires c in s.callers && s.callers[c].stage == AtZrem(victims) && victims != []
    ensures Next(cfg, s, RedisProtocol.Zrem(c, Fate.Ok), t) && t.mems == s.mems
    ensures c in t.callers && t.callers[c].stage == NextVictim(victims[1..])
    ensures t.expiry == s.expiry && t.index == s.index - {victims[0]}
  {
    t := At(s, c, NextVictim(victims[1..])).(index := s.index - {victims[0]});
  }

  lemma MembersFirst<V>(m: map<string, V>, victims: seq<string>)
    requires victims != []
    ensures m - {victims[0]} - Members(victims[1..]) == m - Members(victims)
  {
    assert Members(victims) == {victims[0]} + Members(victims[1..]);
  }

  /** The loop over the victims. */
  lemma {:induction false} DrainReaches(cfg: Config, c: nat, s: State, victims: seq<string>)
    requires c in s.callers && s.callers[c].stage == NextVictim(victims) && NoBlank(victims)
    ensures Reaches(cfg, c, s, End(Keys(s.expiry - Members(victims), s.index - Members(victims)), s.mems, true))
    decreases |victims|
  {
    hide Reaches, Next;
    if victims == [] {
      assert s.expiry - Members(victims) == s.expiry && s.index - Members(victims) == s.index;
      Finished(cfg, c, s, true);
    } else {
      assert NextVictim(victims) == AtDel(victims);
      var s1 := DelNext(cfg, c, s, victims);
      var s2 := ZremNext(cfg, c, s1, victims);
      MembersFirst(s.expiry, victims);
      MembersFirst(s.index, victims);
      DrainReaches(cfg, c, s2, victims[1..]);
      var end := End(Keys(s.expiry - Members(victims), s.index - Members(victims)), s.mems, true);
      OneStep(cfg, c, s1, RedisProtocol.Zrem(c, Fate.Ok), s2, end);
      OneStep(cfg, c, s, Del(c, Fate.Ok), s1, end);
    }
  }

  lemma SetStep(cfg: Config, c: nat, s: State, jti: string) returns (t: State)
    requires cfg.TtlMs() > 0 && c in s.callers && s.callers[c].stage.AtSet? && s.callers[c].jti == jti
    ensures Next(cfg, s, Set(c, Fate.Ok), t) && t.mems == s.mems && t.clock == s.clock
    ensures c in t.callers && t.callers[c].jti == jti
    ensures t.callers[c].stage == if Live(s, jti) then RedisProtocol.Done(false) else AtZadd
    ensures t.index == s.index
    ensures t.expiry == if Live(s, jti) then s.expiry else s.expiry[jti := Ms(s.clock) + cfg.TtlMs()]
  {
    var isNew := !Live(s, jti);
    t := At(s, c, if isNew then AtZadd else RedisProtocol.Done(false)).(
      expiry := if isNew then s.expiry[jti := Ms(s.clock) + cfg.TtlMs()] else s.expiry,
      log := if isNew then s.log + [Accept(jti, s.clock, Redis)] else s.log);
    assert SetNext(cfg, s, c, Fate.Ok, t);
  }

  lemma ZaddNext(cfg: Config, c: nat, s: State, jti: string, score: int) returns (t: State)
    requires c in s.callers && s.callers[c].stage.AtZadd? && s.callers[c].jti == jti
    ensures Next(cfg, s, RedisProtocol.Zadd(c, Fate.Ok, score), t) && t.mems == s.mems
    ensures c in t.callers && t.callers[c].stage == AtZcard
    ensures t.expiry == s.expiry && t.index == s.index[jti := score]
  {
    t := s.(
      index := s.index[jti := score],
      callers := s.callers[c := s.callers[c].(stage := AtZcard, added := s.ticks + 1)],
      ticks := s.ticks + 1);
  }

  lemma ZcardNext(cfg: Config, c: nat, s: State) returns (t: State)
    requires c in s.callers && s.callers[c].stage.AtZcard?
    ensures Next(cfg, s, RedisProtocol.Zcard(c, Fate.Ok), t) && t.mems == s.mems
    ensures c in t.callers
    ensures t.callers[c].stage ==
      if |s.index| > cfg.max then AtZrange(|s.index| - cfg.max) else RedisProtocol.Done(true)
    ensures t.expiry == s.expiry && t.index == s.index
  {
    var excess := |s.index| - cfg.max;
    t := s.(callers := s.callers[c := s.callers[c].(
              stage := if excess > 0 then AtZrange(excess) else RedisProtocol.Done(true), counted := s.ticks + 1)],
            ticks := s.ticks + 1);
  }

  lemma ZrangeNext(cfg: Config, c: nat, s: State, victims: seq<string>) returns (t: State)
    requires c in s.callers && s.callers[c].stage.AtZrange? && Lowest(s.index, s.callers[c].stage.excess, victims)
    ensures Next(cfg, s, RedisProtocol.Zrange(c, Fate.Ok, victims), t) && t.mems == s.mems
    ensures c in t.callers && t.callers[c].stage == NextVictim(victims)
    ensures t.expiry == s.expiry && t.index == s.index
  {
    t := At(s, c, NextVictim(victims));
  }

  /** From ZCARD on: nothing to evict, or the lowest members beyond `max`. */
  lemma CountReaches(cfg: Config, c: nat, s: State, victims: seq<string>)
    requires c in s.callers && s.callers[c].stage.AtZcard? && NoBlank(victims)
    requires Lowest(s.index, Excess(s.index, cfg.max), victims)
    ensures Reaches(cfg, c, s, End(Keys(s.expiry - Members(victims), s.index - Members(victims)), s.mems, true))
  {
    hide Reaches, Next, Lowest, Members, NoBlank;
    var t := ZcardNext(cfg, c, s);
    var end := End(Keys(s.expiry - Members(victims), s.index - Members(victims)), s.mems, true);
    if |s.index| > cfg.max {
      var u := ZrangeNext(cfg, c, t, victims);
      DrainReaches(cfg, c, u, victims);
      OneStep(cfg, c, t, RedisProtocol.Zrange(c, Fate.Ok, victims), u, end);
    } else {
      NothingEvicted(Keys(s.expiry, s.index), victims);
      Finished(cfg, c, t, true);
    }
    OneStep(cfg, c, s, RedisProtocol.Zcard(c, Fate.Ok), t, end);
  }

  lemma NothingEvicted(k: Keys, victims: seq<string>)
    requires Lowest(k.index, 0, victims)
    ensures k.expiry - Members(victims) == k.expiry && k.index - Members(victims) == k.index
  {
    assert Members(victims) == {};
  }

  lemma AddReaches(cfg: Config, c: nat, s: State, jti: string, score: int, victims: seq<string>, k': Keys)
    requires c in s.callers && s.callers[c].stage.AtZadd? && s.callers[c].jti == jti && !IsBlank(jti)
    requires forall m :: m in s.index ==> !IsBlank(m)
    requires Lowest(s.index[jti := score], Excess(s.index[jti := score], cfg.max), victims)
    requires k' == Keys(s.expiry - Members(victims), s.index[jti := score] - Members(victims))
    ensures Reaches(cfg, c, s, End(k', s.mems, true))
  {
    hide Reaches, Next, Lowest, Members, NoBlank, Excess, IsBlank;
    var t := ZaddNext(cfg, c, s, jti, score);
    VictimsNotBlank(t.index, Excess(t.index, cfg.max), victims);
    CountReaches(cfg, c, t, victims);
    OneStep(cfg, c, s, RedisProtocol.Zadd(c, Fate.Ok, score), t, End(k', s.mems, true));
  }

  lemma VictimsNotBlank(index: map<string, int>, n: nat, victims: seq<string>)
    requires Lowest(index, n, victims) && forall m :: m in index ==> !IsBlank(m)
    ensures NoBlank(victims)
  {}

  /** A call whose SET is answered, by its commands. */
  lemma SerialIsARun(cfg: Config, c: nat, s: State, score: int, k': Keys, accepted: bool)
    requires cfg.TtlMs() > 0 && c in s.callers && s.callers[c].stage.AtSet? && Normal(s.callers[c].jti)
    requires forall m :: m in s.index ==> !IsBlank(m)
    requires SerialMark(cfg, Keys(s.expiry, s.index), s.callers[c].jti, s.clock, score, k', accepted)
    ensures Reaches(cfg, c, s, End(k', s.mems, accepted))
  {
    hide Reaches, Next, Lowest, Members, IsBlank, Normal, Excess;
    var jti := s.callers[c].jti;
    NormalIsNotBlank(jti);
    var t := SetStep(cfg, c, s, jti);
    if accepted {
      var victims := Witness(cfg, Keys(s.expiry, s.index), jti, s.clock, score, k');
      AddReaches(cfg, c, t, jti, score, victims, k');
    } else {
      Finished(cfg, c, t, false);
    }
    OneStep(cfg, c, s, Set(c, Fate.Ok), t, End(k', s.mems, accepted));
  }

  lemma FailedSetStep(cfg: Config, c: nat, s: State, fate: Fate) returns (t: State)
    requires c in s.callers && s.callers[c].stage.AtSet? && !fate.Ok? && (fate.Lost? ==> cfg.TtlMs() > 0)
    ensures Next(cfg, s, Set(c, fate), t) && t.mems == s.mems && t.clock == s.clock
    ensures c in t.callers && t.callers[c] == s.callers[c].(stage := AtFallback)
    ensures Keys(t.expiry, t.index) == AfterFailedSet(cfg, fate, Keys(s.expiry, s.index), s.callers[c].jti, s.clock)
  {
    var jti := s.callers[c].jti;
    t := At(s, c, AtFallback).(
      expiry := if fate.Lost? && !Live(s, jti) then s.expiry[jti := Ms(s.clock) + cfg.TtlMs()] else s.expiry);
    assert SetNext(cfg, s, c, fate, t);
  }

  lemma FallStep(cfg: Config, c: nat, s: State, m': Mem, o: Outcome) returns (t: State)
    requires c in s.callers && s.callers[c].stage.AtFallback? && s.callers[c].instance in s.mems
    requires Marks(s.mems[s.callers[c].instance], cfg.ttl, cfg.max, s.callers[c].jti, s.clock, m', o)
    ensures Next(cfg, s, Fall(c, o), t) && t.mems == s.mems[s.callers[c].instance := m']
    ensures c in t.callers && t.callers[c].stage == RedisProtocol.Done(o.Fresh?)
    ensures t.expiry == s.expiry && t.index == s.index
  {
    hide Marks;
    var me := s.callers[c];
    t := At(s, c, RedisProtocol.Done(o.Fresh?)).(
      mems := s.mems[me.instance := m'],
      log := s.log + FallEvents(me, s.clock, o));
    assert FallNext(cfg, s, c, o, t);
  }

  /** A call whose SET fails, by its two steps. */
  lemma FallbackIsARun(cfg: Config, c: nat, s: State, fate: Fate, h: History, h': History, o: Outcome)
    requires c in s.callers && s.callers[c].stage.AtSet? && !fate.Ok? && (fate.Lost? ==> cfg.TtlMs() > 0)
    requires s.callers[c].instance in s.mems && s.mems[s.callers[c].instance] == h.mem
    requires Steps(h, cfg.ttl, cfg.max, s.callers[c].jti, s.clock, h', o)
    ensures
      var k' := AfterFailedSet(cfg, fate, Keys(s.expiry, s.index), s.callers[c].jti, s.clock);
      Reaches(cfg, c, s, End(k', s.mems[s.callers[c].instance := h'.mem], o.Fresh?))
  {
    hide Reaches, Next, Marks, AfterFailedSet;
    var t := FailedSetStep(cfg, c, s, fate);
    var u := FallStep(cfg, c, t, h'.mem, o);
    Finished(cfg, c, u, o.Fresh?);
    OneStep(cfg, c, t, Fall(c, o), u, End(Keys(u.expiry, u.index), u.mems, o.Fresh?));
    OneStep(cfg, c, s, Set(c, fate), t, End(Keys(u.expiry, u.index), u.mems, o.Fresh?));
  }

  /**
   What a call that runs alone does, to the keys and to the fallback of its instance, is what its steps do in the
   protocol, so the bounds on all interleavings hold of such calls too.
   */
  lemma SwitchIsARun(
    cfg: Config, c: nat, s: State, fate: Fate, h: History, score: int, k': Keys, h': History, r: MarkResult)
    requires c in s.callers && s.callers[c].stage.AtSet? && Normal(s.callers[c].jti)
    requires s.callers[c].instance in s.mems && s.mems[s.callers[c].instance] == h.mem
    requires forall m :: m in s.index ==> !IsBlank(m)
    requires Switches(cfg, fate, Keys(s.expiry, s.index), h, s.callers[c].jti, s.clock, score, k', h', r)
    ensures Reaches(cfg, c, s, End(k', s.mems[s.callers[c].instance := h'.mem], r.Marked?))
  {
    hide Reaches, SerialMark, Steps, Normal, IsBlank, Alive;
    var jti, i := s.callers[c].jti, s.callers[c].instance;
    if fate.Ok? && cfg.TtlMs() > 0 {
      assert s.mems[i := h'.mem] == s.mems;
      SerialIsARun(cfg, c, s, score, k', r.Marked?);
    } else {
      var o :| Steps(h, cfg.ttl, cfg.max, jti, s.clock, h', o) && r == if o.Fresh? then Marked else ReplayDetected;
      FallbackIsARun(cfg, c, s, if cfg.TtlMs() > 0 then fate else NotRun, h, h', o);
    }
  }
}
