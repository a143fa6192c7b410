/**
 The shared replay store as a transition system. Every caller of `MarkIfNew` runs the Redis commands of
 `markIfNew` one at a time; any number of callers, on any number of service instances, interleave between
 commands, and any command may fail. A failed SET sends the caller to the in-memory fallback of its instance.
 */
module RedisProtocol {
  import opened Text
  import opened MemoryReplay

  const NANOS_PER_MILLI: int := 1_000_000

  /** `ttl` in nanoseconds and `max` as the constructor of the cache leaves them. */
  datatype Config = Config(ttl: int, max: int) {
    predicate Valid() {
      ttl > 0 && max > 0
    }

    /** ttl.Milliseconds(), the argument of PX. */
    function TtlMs(): int {
      ttl / NANOS_PER_MILLI
    }

    /** The part of `ttl` that survives the rounding to milliseconds. */
    function Window(): int {
      TtlMs() * NANOS_PER_MILLI
    }
  }

  function Ms(t: int): int {
    t / NANOS_PER_MILLI
  }

  /** Where a caller is: before the named command, or finished with its answer. */
  datatype Stage =
    | AtSet
    | AtFallback
    | AtZadd
    | AtZcard
    | AtZrange(excess: nat)
    | AtDel(victims: seq<string>)
    | AtZrem(victims: seq<string>)
    | Done(accepted: bool)

  /** `added` and `counted` are history: the values of `ticks` at the caller's ZADD and ZCARD. */
  datatype Caller = Caller(instance: nat, jti: string, stage: Stage, added: nat, counted: nat)

  datatype Source = Redis | Fallback(instance: nat)

  datatype Event =
    | Accept(jti: string, at: int, source: Source)
    | Evict(jti: string, at: int, source: Source)

  /** Redis: expiry times in milliseconds by identifier, and the sorted set with its scores. */
  datatype State = State(
    expiry: map<string, int>,
    index: map<string, int>,
    clock: int,
    mems: map<nat, Mem>,
    callers: map<nat, Caller>,
    log: seq<Event>,
    ticks: nat)

  /** A command runs and its reply arrives, runs but the reply is lost, or does not run. */
  datatype Fate = Ok | Lost | NotRun

  datatype Label =
    | Tick(now: int)
    | Begin(c: nat, instance: nat, jti: string)
    | Set(c: nat, fate: Fate)
    | Fall(c: nat, outcome: Outcome)
    | Zadd(c: nat, fate: Fate, score: int)
    | Zcard(c: nat, fate: Fate)
    | Zrange(c: nat, fate: Fate, victims: seq<string>)
    | Del(c: nat, fate: Fate)
    | Zrem(c: nat, fate: Fate)

  /** A key is expired when the clock of the server has passed its expiry time. */
  predicate Live(s: State, jti: string) {
    jti in s.expiry && Ms(s.clock) <= s.expiry[jti]
  }

  /** Blank victims are skipped without a command. */
  function NextVictim(victims: seq<string>): Stage {
    if victims == [] then Done(true)
    else if IsBlank(victims[0]) then NextVictim(victims[1..])
    else AtDel(victims)
  }

  predicate Before(index: map<string, int>, a: string, b: string)
    requires a in index && b in index
  {
    index[a] < index[b] || (index[a] == index[b] && Leq(a, b))
  }

  /** ZRANGE index 0 n-1: the `n` lowest members, by score and then by name. */
  ghost predicate Lowest(index: map<string, int>, n: nat, victims: seq<string>) {
    && |victims| == (if n <= |index| then n else |index|)
    && (forall i :: 0 <= i < |victims| ==> victims[i] in index)
    && (forall i, j :: 0 <= i < j < |victims| ==> victims[i] != victims[j] && Before(index, victims[i], victims[j]))
    && (forall i, m :: 0 <= i < |victims| && m in index && m !in victims ==> Before(index, victims[i], m))
  }

  function At(s: State, c: nat, stage: Stage): State
    requires c in s.callers
  {
    s.(callers := s.callers[c := s.callers[c].(stage := stage)])
  }

  predicate CallerAt(s: State, l: Label) {
    !l.Tick? && !l.Begin? ==>
      && l.c in s.callers
      && match s.callers[l.c].stage {
           case AtSet => l.Set?
           case AtFallback => l.Fall?
           case AtZadd => l.Zadd?
           case AtZcard => l.Zcard?
           case AtZrange(_) => l.Zrange?
           case AtDel(victims) => l.Del? && victims != []
           case AtZrem(victims) => l.Zrem? && victims != []
           case Done(_) => false
         }
  }

  /** One atomic step. */
  ghost predicate Next(cfg: Config, s: State, l: Label, s': State) {
    && CallerAt(s, l)
    && match l {
         case Tick(now) =>
           s.clock <= now && s' == s.(clock := now)
         case Begin(c, instance, jti) =>
           && (c in s.callers ==> s.callers[c].stage.Done?)
           && instance in s.mems && Normal(jti)
           && s' == s.(callers := s.callers[c := Caller(instance, jti, AtSet, 0, 0)])
         case Set(c, fate) => SetNext(cfg, s, c, fate, s')
         case Fall(c, outcome) => FallNext(cfg, s, c, outcome, s')
         case Zadd(c, fate, score) =>
           var me := s.callers[c].(stage := AtZcard, added := s.ticks + 1);
           s' == s.(
             index := if fate.NotRun? then s.index else s.index[me.jti := score],
             callers := s.callers[c := me],
             ticks := s.ticks + 1)
         case Zcard(c, fate) =>
           var excess := |s.index| - cfg.max;
           var stage := if fate.Ok? && excess > 0 then AtZrange(excess) else Done(true);
           s' == s.(
             callers := s.callers[c := s.callers[c].(stage := stage, counted := s.ticks + 1)],
             ticks := s.ticks + 1)
         case Zrange(c, fate, victims) =>
           && (fate.Ok? ==> Lowest(s.index, s.callers[c].stage.excess, victims))
           && s' == At(s, c, if fate.Ok? then NextVictim(victims) else Done(true))
         case Del(c, fate) =>
           var victims := s.callers[c].stage.victims;
           var s1 := At(s, c, AtZrem(victims));
           s' == if fate.NotRun? then s1
                 else s1.(expiry := s.expiry - {victims[0]}, log := s.log + [Evict(victims[0], s.clock, Redis)])
         case Zrem(c, fate) =>
           var victims := s.callers[c].stage.victims;
           var s1 := At(s, c, NextVictim(victims[1..]));
           s' == if fate.NotRun? then s1 else s1.(index := s.index - {victims[0]})
       }
  }

  /** SET key 1 NX PX ttl. The server refuses a PX of zero, so that a written key needs a positive one. */
  ghost predicate SetNext(cfg: Config, s: State, c: nat, fate: Fate, s': State)
    requires c in s.callers
  {
    var jti := s.callers[c].jti;
    var isNew := !Live(s, jti);
    && (!fate.NotRun? ==> cfg.TtlMs() > 0)
    && s' == At(s, c, if !fate.Ok? then AtFallback else if isNew then AtZadd else Done(false)).(
         expiry := if !fate.NotRun? && isNew then s.expiry[jti := Ms(s.clock) + cfg.TtlMs()] else s.expiry,
         log := if fate.Ok? && isNew then s.log + [Accept(jti, s.clock, Redis)] else s.log)
  }

  /** The fallback cache of the instance decides, as one step under its mutex. */
  ghost predicate FallNext(cfg: Config, s: State, c: nat, outcome: Outcome, s': State)
    requires c in s.callers
  {
    var me := s.callers[c];
    && me.instance in s.mems && me.instance in s'.mems
    && Marks(s.mems[me.instance], cfg.ttl, cfg.max, me.jti, s.clock, s'.mems[me.instance], outcome)
    && s' == At(s, c, Done(outcome.Fresh?)).(
         mems := s.mems[me.instance := s'.mems[me.instance]],
         log := s.log + FallEvents(me, s.clock, outcome))
  }

  function FallEvents(me: Caller, now: int, outcome: Outcome): seq<Event> {
    match outcome
    case Replayed => []
    case Fresh(None) => [Accept(me.jti, now, Fallback(me.instance))]
    case Fresh(Some(v)) => [Evict(v, now, Fallback(me.instance)), Accept(me.jti, now, Fallback(me.instance))]
  }

  ghost predicate Init(s: State) {
    && s.expiry == map[] && s.index == map[] && s.callers == map[] && s.log == [] && s.ticks == 0
    && forall i :: i in s.mems ==> s.mems[i].items == map[] && s.mems[i].last <= s.clock
  }

  ghost predicate IsInterleaving(cfg: Config, ss: seq<State>, ls: seq<Label>) {
    && cfg.Valid() && |ss| == |ls| + 1 && Init(ss[0])
    && forall n :: 0 <= n < |ls| ==> Next(cfg, ss[n], ls[n], ss[n + 1])
  }
}
