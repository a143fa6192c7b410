/** Interleavings and failures under which stronger-looking promises of the Redis backend do not hold. */
module RedisExamples {
  import opened Text
  import opened MemoryReplay
  import opened RedisProtocol
  import opened RedisBound

  /** The command of this step, if any, is carried out and answered. */
  predicate Clean(l: Label) {
    l.Tick? || l.Begin? || l.Fall? || l.fate.Ok?
  }

  /** Reachable by a run in which nothing fails but `f` steps that the bound counts. */
  ghost predicate IsRunTo(cfg: Config, ss: seq<State>, ls: seq<Label>, s: State, f: nat) {
    && IsInterleaving(cfg, ss, ls) && ss[|ls|] == s && Failures(ls) == f
    && forall k :: 0 <= k < |ls| ==> Clean(ls[k]) || !Evicting(ls[k])
  }

  ghost predicate Reaches(cfg: Config, s: State, f: nat) {
    exists ss, ls :: IsRunTo(cfg, ss, ls, s, f)
  }

  lemma ReachesInit(cfg: Config, s: State)
    requires cfg.Valid() && Init(s)
    ensures Reaches(cfg, s, 0)
  {
    assert IsRunTo(cfg, [s], [], s, 0);
  }

  lemma ReachesNext(cfg: Config, s: State, l: Label, s': State, f: nat)
    requires Reaches(cfg, s, f) && Next(cfg, s, l, s') && (Clean(l) || !Evicting(l))
    ensures Reaches(cfg, s', if Evicting(l) then f else f + 1)
  {
    hide Next, Init;
    var ss, ls :| IsRunTo(cfg, ss, ls, s, f);
    assert (ls + [l])[..|ls|] == ls;
    var f' := if Evicting(l) then f else f + 1;
    assert IsRunTo(cfg, ss + [s'], ls + [l], s', f');
  }

  /** A new caller sets, and indexes, an identifier that is not alive. */
  lemma Adds(cfg: Config, s: State, c: nat, jti: string, score: int, f: nat) returns (s': State)
    requires Reaches(cfg, s, f) && cfg.TtlMs() > 0 && 0 in s.mems
    requires c !in s.callers && Normal(jti) && !Live(s, jti)
    ensures Reaches(cfg, s', f)
    ensures s' == s.(
      expiry := s.expiry[jti := Ms(s.clock) + cfg.TtlMs()],
      index := s.index[jti := score],
      callers := s.callers[c := Caller(0, jti, AtZcard, s.ticks + 1, 0)],
      log := s.log + [Accept(jti, s.clock, Redis)],
      ticks := s.ticks + 1)
  {
    hide Reaches, Normal;
    var s1 := s.(callers := s.callers[c := Caller(0, jti, AtSet, 0, 0)]);
    ReachesNext(cfg, s, Begin(c, 0, jti), s1, f);
    var s2 := SetsKey(cfg, s1, c, jti, f);
    s' := s2.(
      index := s.index[jti := score],
      callers := s2.callers[c := Caller(0, jti, AtZcard, s.ticks + 1, 0)],
      ticks := s.ticks + 1);
    ReachesNext(cfg, s2, Zadd(c, Ok, score), s', f);
    assert s'.callers == s.callers[c := Caller(0, jti, AtZcard, s.ticks + 1, 0)];
  }

  lemma SetsKey(cfg: Config, s: State, c: nat, jti: string, f: nat) returns (s': State)
    requires Reaches(cfg, s, f) && cfg.TtlMs() > 0 && !Live(s, jti)
    requires c in s.callers && s.callers[c] == Caller(0, jti, AtSet, 0, 0)
    ensures Reaches(cfg, s', f)
    ensures s' == At(s, c, AtZadd).(
      expiry := s.expiry[jti := Ms(s.clock) + cfg.TtlMs()],
      log := s.log + [Accept(jti, s.clock, Redis)])
  {
    hide Reaches;
    s' := At(s, c, AtZadd).(
      expiry := s.expiry[jti := Ms(s.clock) + cfg.TtlMs()],
      log := s.log + [Accept(jti, s.clock, Redis)]);
    ReachesNext(cfg, s, Set(c, Ok), s', f);
  }

  /** A caller counts, or fails to. */
  lemma Counts(cfg: Config, s: State, c: nat, fate: Fate, f: nat) returns (s': State)
    requires Reaches(cfg, s, f) && c in s.callers && s.callers[c].stage.AtZcard?
    ensures Reaches(cfg, s', if fate.Ok? then f else f + 1) && Next(cfg, s, Zcard(c, fate), s')
    ensures
      var stage := if fate.Ok? && |s.index| > cfg.max then AtZrange(|s.index| - cfg.max) else Done(true);
      s' == s.(callers := s.callers[c := s.callers[c].(stage := stage, counted := s.ticks + 1)], ticks := s.ticks + 1)
  {
    hide Reaches;
    var stage := if fate.Ok? && |s.index| > cfg.max then AtZrange(|s.index| - cfg.max) else Done(true);
    s' := s.(callers := s.callers[c := s.callers[c].(stage := stage, counted := s.ticks + 1)], ticks := s.ticks + 1);
    ReachesNext(cfg, s, Zcard(c, fate), s', f);
  }

  /** A caller that counted one member too many deletes the key of the lowest, and has yet to clear the index. */
  lemma Deletes(cfg: Config, s: State, c: nat, victim: string, f: nat) returns (s': State)
    requires Reaches(cfg, s, f) && c in s.callers && s.callers[c].stage == AtZrange(1)
    requires !IsBlank(victim) && Lowest(s.index, 1, [victim])
    ensures Reaches(cfg, s', f)
    ensures s' == At(s, c, AtZrem([victim])).(
      expiry := s.expiry - {victim},
      log := s.log + [Evict(victim, s.clock, Redis)])
  {
    hide Reaches, Lowest;
    var s1 := At(s, c, AtDel([victim]));
    ReachesNext(cfg, s, Zrange(c, Ok, [victim]), s1, f);
    s' := At(s1, c, AtZrem([victim])).(expiry := s.expiry - {victim}, log := s.log + [Evict(victim, s.clock, Redis)]);
    ReachesNext(cfg, s1, Del(c, Ok), s', f);
  }

  /** Its ZREM, whoever has added the member again meanwhile. */
  lemma Removes(cfg: Config, s: State, c: nat, victim: string, f: nat) returns (s': State)
    requires Reaches(cfg, s, f) && c in s.callers && s.callers[c].stage == AtZrem([victim])
    ensures Reaches(cfg, s', f)
    ensures s' == At(s, c, Done(true)).(index := s.index - {victim})
  {
    hide Reaches;
    assert [victim][1..] == [];
    s' := At(s, c, Done(true)).(index := s.index - {victim});
    ReachesNext(cfg, s, Zrem(c, Ok), s', f);
  }

  // ---------- a key that eviction cannot find ----------

  const TEN_MS := Config(10_000_000, 1)

  lemma Names()
    ensures Normal("a") && Normal("b")
    ensures !IsBlank("a") && !IsBlank("b")
  {}

  /** One caller put "a" into an index with room for one, and has returned. */
  lemma OneMember() returns (s: State)
    ensures Reaches(TEN_MS, s, 0) && 0 in s.mems
    ensures s.clock == 0 && s.expiry == map["a" := 10] && s.index == map["a" := 1]
    ensures s.callers == map[0 := Caller(0, "a", Done(true), 1, 2)] && s.ticks == 2
  {
    Names();
    s := State(map[], map[], 0, map[0 := Mem(map[], 0)], map[], [], 0);
    ReachesInit(TEN_MS, s);
    s := Adds(TEN_MS, s, 0, "a", 1, 0);
    s := Counts(TEN_MS, s, 0, Ok, 0);
  }

  /** ... and another has added "b". */
  lemma TwoMembers() returns (s: State)
    ensures Reaches(TEN_MS, s, 0) && 0 in s.mems
    ensures s.clock == 0 && s.expiry == map["a" := 10, "b" := 10] && s.index == map["a" := 1, "b" := 2]
    ensures s.callers == map[0 := Caller(0, "a", Done(true), 1, 2), 1 := Caller(0, "b", AtZcard, 3, 0)]
    ensures s.ticks == 3
  {
    Names();
    s := OneMember();
    s := Adds(TEN_MS, s, 1, "b", 2, 0);
  }

  lemma LowestOfTwo(index: map<string, int>)
    requires index == map["a" := 1, "b" := 2]
    ensures |index| == 2 && Lowest(index, 1, ["a"])
  {
    assert index.Keys == {"a", "b"};
  }

  /** ... and the second has deleted the key of "a" but not yet its place in the index. */
  lemma HalfEvicted() returns (s: State)
    ensures Reaches(TEN_MS, s, 0) && 0 in s.mems
    ensures s.clock == 0 && s.expiry == map["b" := 10] && s.index == map["a" := 1, "b" := 2]
    ensures s.callers == map[0 := Caller(0, "a", Done(true), 1, 2), 1 := Caller(0, "b", AtZrem(["a"]), 3, 4)]
    ensures s.ticks == 4
  {
    hide Reaches;
    Names();
    var s0 := TwoMembers();
    LowestOfTwo(s0.index);
    var s1 := Counts(TEN_MS, s0, 1, Ok, 0);
    s := Deletes(TEN_MS, s1, 1, "a", 0);
  }

  /** ... and a third sets and adds "a" again before the second removes it from the index. */
  lemma Straddled() returns (s: State)
    ensures Reaches(TEN_MS, s, 0)
    ensures s.clock == 0 && "a" in s.expiry && s.expiry["a"] == 10 && s.index == map["b" := 2]
    ensures s.callers.Keys == {0, 1, 2} && s.callers[0].stage.Done? && s.callers[1].stage.Done?
    ensures s.callers[2].stage.AtZcard?
  {
    hide Reaches;
    Names();
    var s0 := HalfEvicted();
    var s1 := Adds(TEN_MS, s0, 2, "a", 3, 0);
    s := Removes(TEN_MS, s1, 1, "a", 0);
  }

  /**
   A DEL and its ZREM can straddle the SET and ZADD of another caller. Then a live key is missing from the
   index although no command failed and nobody is in flight, so that no later eviction will find it.
   */
  lemma LiveKeyEscapesIndex() returns (s: State)
    ensures Reaches(TEN_MS, s, 0) && Flying(s) == {} && Live(s, "a") && "a" !in s.index
  {
    var s1 := Straddled();
    s := Counts(TEN_MS, s1, 2, Ok, 0);
  }

  // ---------- what each failure costs ----------

  /** The n-th of a supply of identifiers. */
  function Name(n: nat): string {
    seq(n + 1, i requires 0 <= i < n + 1 => 'a')
  }

  lemma NameIsNormal(n: nat)
    ensures Normal(Name(n)) && !IsBlank(Name(n)) && |Name(n)| == n + 1
  {
    AlreadyTrimmed(Name(n));
  }

  /** One of the first `n` names, with its number as score. */
  predicate IsName(m: string, score: int, n: nat) {
    1 <= |m| <= n && m == Name(|m| - 1) && score == |m| - 1
  }

  ghost predicate Named(index: map<string, int>, n: nat) {
    |index| == n && forall m :: m in index ==> IsName(m, index[m], n)
  }

  lemma StillName(m: string, score: int, n: nat)
    requires IsName(m, score, n)
    ensures IsName(m, score, n + 1) && |m| <= n
  {
    hide Name;
  }

  lemma NamedNext(index: map<string, int>, n: nat, name: string, index': map<string, int>)
    requires Named(index, n) && name == Name(n) && |name| == n + 1 && index' == index[name := n]
    ensures Named(index', n + 1)
  {
    hide Name, IsName;
    forall m | m in index ensures IsName(m, index[m], n + 1) && m != name {
      StillName(m, index[m], n);
    }
    assert index'.Keys == index.Keys + {name};
    NameIsName(n);
  }

  lemma NameIsName(n: nat)
    ensures IsName(Name(n), n, n + 1)
  {}

  /** `n` callers have returned, the k-th with the k-th name under the score k, and none is in flight. */
  ghost predicate Filled(s: State, n: nat) {
    && 0 in s.mems && Named(s.index, n)
    && (forall m :: m in s.expiry ==> |m| <= n)
    && (forall c :: c in s.callers ==> c < n && s.callers[c].stage.Done?)
  }

  /** One more name is in the index, and its caller is about to count. */
  lemma AddsName(cfg: Config, s: State, n: nat, f: nat) returns (s': State)
    requires Reaches(cfg, s, f) && cfg.TtlMs() > 0 && Filled(s, n)
    ensures Reaches(cfg, s', f) && 0 in s'.mems && Named(s'.index, n + 1)
    ensures forall m :: m in s'.expiry ==> |m| <= n + 1
    ensures s'.callers.Keys == s.callers.Keys + {n} && s'.callers[n].stage.AtZcard?
    ensures forall c :: c in s'.callers && c != n ==> c < n && s'.callers[c].stage.Done?
  {
    hide Reaches, Normal, IsBlank, Name, Named;
    NameIsNormal(n);
    NamedNext(s.index, n, Name(n), s.index[Name(n) := n]);
    s' := Adds(cfg, s, n, Name(n), n, f);
  }

  /** After `max` callers every further one that fails to count leaves one member more. */
  lemma {:induction false} Fills(cfg: Config, n: nat) returns (s: State)
    requires cfg.Valid() && cfg.TtlMs() > 0
    ensures Reaches(cfg, s, if n <= cfg.max then 0 else n - cfg.max) && Filled(s, n)
  {
    hide Reaches, Name;
    if n == 0 {
      s := State(map[], map[], 0, map[0 := Mem(map[], 0)], map[], [], 0);
      ReachesInit(cfg, s);
    } else {
      var s0 := Fills(cfg, n - 1);
      var f := if n - 1 <= cfg.max then 0 else n - 1 - cfg.max;
      var s1 := AddsName(cfg, s0, n - 1, f);
      s := Counts(cfg, s1, n - 1, if n <= cfg.max then Ok else Lost, f);
    }
  }

  lemma Grounds(s: State, n: nat)
    requires Filled(s, n)
    ensures Flying(s) == {}
  {}

  /** The bound with failures is sharp: for every number of failures a run with none in flight attains it. */
  lemma BoundIsAttained(cfg: Config, f: nat) returns (ss: seq<State>, ls: seq<Label>)
    requires cfg.Valid() && cfg.TtlMs() > 0
    ensures IsInterleaving(cfg, ss, ls) && Failures(ls) == f
    ensures Flying(ss[|ls|]) == {} && |ss[|ls|].index| == cfg.max + f
  {
    var s := Fills(cfg, cfg.max + f);
    Grounds(s, cfg.max + f);
    hide IsInterleaving, Failures, Filled, Clean, Evicting;
    ss, ls :| IsRunTo(cfg, ss, ls, s, f);
  }

  /** A full index, with one caller more that has added its member. */
  lemma OneTooMany(cfg: Config) returns (s: State)
    requires cfg.Valid() && cfg.TtlMs() > 0
    ensures Reaches(cfg, s, 0) && |s.index| == cfg.max + 1
    ensures cfg.max in s.callers && s.callers[cfg.max].stage.AtZcard? && Flying(s) == {cfg.max}
    ensures Lowest(s.index, 1, [Name(0)])
  {
    hide Reaches, Name;
    var s0 := Fills(cfg, cfg.max);
    s := AddsName(cfg, s0, cfg.max, 0);
    LowestName(s.index, cfg.max + 1);
  }

  lemma {:induction false} ShortNames(names: set<string>, n: nat)
    requires forall m :: m in names ==> 2 <= |m| <= n && m == Name(|m| - 1)
    ensures |names| <= if n == 0 then 0 else n - 1
    decreases n
  {
    if n >= 2 {
      ShortNames(names - {Name(n - 1)}, n - 1);
    } else {
      assert names == {};
    }
  }

  lemma LowestName(index: map<string, int>, n: nat)
    requires n > 0 && Named(index, n)
    ensures Lowest(index, 1, [Name(0)])
  {
    if Name(0) !in index {
      forall m | m in index ensures 2 <= |m| {
        assert |m| != 1;
      }
      ShortNames(index.Keys, n);
    }
    assert index[Name(0)] == 0;
    forall m | m in index && m !in [Name(0)] ensures Before(index, Name(0), m) {
      assert |m| != 1;
    }
  }

  /** A lost or failed ZCARD leaves a full index one above `max`, with nobody in flight. */
  lemma LostCountBreaksBound(cfg: Config, fate: Fate) returns (s: State, c: nat, s': State)
    requires cfg.Valid() && cfg.TtlMs() > 0 && !fate.Ok?
    ensures Reaches(cfg, s, 0) && Next(cfg, s, Zcard(c, fate), s')
    ensures Flying(s') == {} && |s'.index| == cfg.max + 1
  {
    hide Reaches, Lowest, Next, Name;
    s := OneTooMany(cfg);
    c := cfg.max;
    s' := Counts(cfg, s, c, fate, 0);
    Lands(s, c, s');
  }

  lemma Lands(s: State, c: nat, s': State)
    requires Flying(s) == {c} && c in s'.callers && s'.callers[c].stage.Done?
    requires s'.callers.Keys == s.callers.Keys && forall d :: d in s.callers && d != c ==> s'.callers[d] == s.callers[d]
    ensures Flying(s') == {}
  {
    forall d ensures d !in Flying(s') {
      assert d != c && d in s.callers ==> (d in Flying(s') <==> d in Flying(s));
    }
  }

  /** So does a lost or failed ZRANGE, */
  lemma LostRangeBreaksBound(cfg: Config, fate: Fate) returns (s: State, c: nat, s': State)
    requires cfg.Valid() && cfg.TtlMs() > 0 && !fate.Ok?
    ensures Reaches(cfg, s, 0) && Next(cfg, s, Zrange(c, fate, []), s')
    ensures Flying(s') == {} && |s'.index| == cfg.max + 1
  {
    hide Reaches, Lowest, Name;
    var s0 := OneTooMany(cfg);
    c := cfg.max;
    s := Counts(cfg, s0, c, Ok, 0);
    s' := At(s, c, Done(true));
    Lands(s0, c, s');
  }

  /** ... and a ZREM that is not carried out. */
  lemma SkippedZremBreaksBound(cfg: Config) returns (s: State, c: nat, s': State)
    requires cfg.Valid() && cfg.TtlMs() > 0
    ensures Reaches(cfg, s, 0) && Next(cfg, s, Zrem(c, NotRun), s')
    ensures Flying(s') == {} && |s'.index| == cfg.max + 1
  {
    hide Reaches, Lowest, Name, IsBlank, Normal;
    var s0 := OneTooMany(cfg);
    c := cfg.max;
    NameIsNormal(0);
    var s1 := Counts(cfg, s0, c, Ok, 0);
    s := Deletes(cfg, s1, c, Name(0), 0);
    assert [Name(0)][1..] == [];
    s' := At(s, c, Done(true));
    Lands(s0, c, s');
  }
}
