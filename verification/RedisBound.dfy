/**
 How far the Redis index can grow while callers interleave: never more than one member per caller that is
 between its ZADD and its return, and so at most `max` members whenever no caller is in between, although
 counts and victim lists are stale by the time they are used.
 */
module RedisBound {
  import opened Text
  import opened MemoryReplay
  import opened RedisProtocol

  predicate InFlight(stage: Stage) {
    stage.AtZcard? || stage.AtZrange? || stage.AtDel? || stage.AtZrem?
  }

  /** The callers between their ZADD and their return. */
  function Flying(s: State): set<nat> {
    set c | c in s.callers && InFlight(s.callers[c].stage)
  }

  /** Those of them that ran their ZADD after tick `stamp`. */
  function Since(s: State, stamp: nat): set<nat> {
    set c | c in s.callers && InFlight(s.callers[c].stage) && s.callers[c].added > stamp
  }

  /**
   The steps that keep the account balanced: ZADD and DEL may fail in any way, and a ZREM may lose its reply.
   A failing ZCARD or ZRANGE makes its caller return without evicting, and a ZREM that never runs leaves its
   victim behind.
   */
  predicate Evicting(l: Label) {
    match l
    case Zcard(_, fate) => fate.Ok?
    case Zrange(_, fate, _) => fate.Ok?
    case Zrem(_, fate) => !fate.NotRun?
    case _ => true
  }

  /** How many steps of a run do not. */
  function Failures(ls: seq<Label>): nat {
    if ls == [] then 0
    else Failures(ls[..|ls| - 1]) + if Evicting(ls[|ls| - 1]) then 0 else 1
  }

  /** Distinct members of a list. */
  function Members(names: seq<string>): set<string> {
    set n | n in names
  }

  predicate NoBlank(names: seq<string>) {
    forall n :: n in names ==> !IsBlank(n)
  }

  /**
   Caller `c` will bring the index down to `max`, up to those that joined after it counted and up to what
   `lost` failures have left behind.
   */
  predicate Settles(cfg: Config, s: State, c: nat, lost: nat)
    requires c in s.callers
  {
    var me := s.callers[c];
    match me.stage
    case AtZcard => me.added <= s.ticks
    case AtZrange(excess) =>
      && me.added < me.counted <= s.ticks && excess > 0
      && |s.index| <= cfg.max + excess + |Since(s, me.counted)| + lost
    case AtDel(victims) => Drains(cfg, s, me, victims, lost)
    case AtZrem(victims) => Drains(cfg, s, me, victims, lost)
    case _ => true
  }

  predicate Drains(cfg: Config, s: State, me: Caller, victims: seq<string>, lost: nat) {
    && me.added < me.counted <= s.ticks && NoBlank(victims)
    && |s.index.Keys - Members(victims)| <= cfg.max + |Since(s, me.counted)| + lost
  }

  /** No more than `max + lost` members, apart from those of callers that joined after some past tick. */
  ghost predicate Pivot(cfg: Config, s: State, p: nat, lost: nat) {
    p <= s.ticks && |s.index| <= cfg.max + |Since(s, p)| + lost
  }

  ghost predicate Inv(cfg: Config, s: State, lost: nat) {
    && cfg.Valid()
    && (forall m :: m in s.index ==> !IsBlank(m))
    && (forall c :: c in s.callers ==> !IsBlank(s.callers[c].jti))
    && (forall c :: c in s.callers ==> Settles(cfg, s, c, lost))
    && (exists p :: Pivot(cfg, s, p, lost))
  }

  /** Only caller `c` moves, and it keeps its identifier. */
  ghost predicate Moves(s: State, c: nat, s': State) {
    && c in s'.callers && s'.callers == s.callers[c := s'.callers[c]] && s.ticks <= s'.ticks
    && (c in s.callers ==> s'.callers[c].jti == s.callers[c].jti)
  }

  lemma NextVictimOf(victims: seq<string>)
    requires NoBlank(victims)
    ensures NextVictim(victims) == if victims == [] then Done(true) else AtDel(victims)
  {}

  lemma NormalIsNotBlank(jti: string)
    requires Normal(jti)
    ensures !IsBlank(jti)
  {}

  // ---------- sizes ----------

  lemma SinceSame(s: State, c: nat, s': State, stamp: nat)
    requires c in s'.callers && s'.callers == s.callers[c := s'.callers[c]]
    requires c in Since(s, stamp) <==> InFlight(s'.callers[c].stage) && s'.callers[c].added > stamp
    ensures Since(s', stamp) == Since(s, stamp)
  {
    forall d ensures d in Since(s', stamp) <==> d in Since(s, stamp) {
      assert d != c && d in s.callers ==> s'.callers[d] == s.callers[d];
    }
  }

  lemma SinceOfCallers(s: State, s': State, stamp: nat)
    requires s'.callers == s.callers
    ensures Since(s', stamp) == Since(s, stamp)
  {}

  /** A caller that takes off at the next tick is counted by everybody who counted before. */
  lemma SinceTakeoff(s: State, c: nat, s': State, stamp: nat)
    requires c in s.callers && c in s'.callers && s'.callers == s.callers[c := s'.callers[c]]
    requires !InFlight(s.callers[c].stage) && InFlight(s'.callers[c].stage)
    requires s'.callers[c].added > stamp
    ensures |Since(s', stamp)| == |Since(s, stamp)| + 1
  {
    forall d ensures d in Since(s', stamp) <==> d == c || d in Since(s, stamp) {
      assert d != c && d in s.callers ==> s'.callers[d] == s.callers[d];
    }
    assert Since(s', stamp) == Since(s, stamp) + {c};
  }

  /** Whatever one caller does, the others that are counted stay counted. */
  lemma SinceLosesOne(s: State, c: nat, s': State, stamp: nat)
    requires c in s'.callers && s'.callers == s.callers[c := s'.callers[c]]
    ensures |Since(s', stamp)| >= |Since(s, stamp)| - 1
  {
    forall d | d in Since(s, stamp) - {c} ensures d in Since(s', stamp) {
      assert s'.callers[d] == s.callers[d];
    }
    SubsetSize(Since(s, stamp) - {c}, Since(s', stamp));
    assert |Since(s, stamp) - {c}| >= |Since(s, stamp)| - 1;
  }

  lemma IndexPut(index: map<string, int>, k: string, v: int, gone: set<string>)
    ensures |index[k := v].Keys - gone| <= |index.Keys - gone| + 1
    ensures |index[k := v]| <= |index| + 1
  {
    assert index[k := v].Keys == index.Keys + {k};
    assert index.Keys + {k} - gone <= (index.Keys - gone) + {k};
    SubsetSize(index.Keys + {k} - gone, (index.Keys - gone) + {k});
  }

  lemma MembersSize(names: seq<string>)
    requires forall i, j :: 0 <= i < j < |names| ==> names[i] != names[j]
    ensures |Members(names)| == |names|
  {
    if names != [] {
      MembersSize(names[1..]);
      assert Members(names) == {names[0]} + Members(names[1..]);
    }
  }

  /** What the index has left of `names` shrinks with the index. */
  lemma LeftShrinks(index: map<string, int>, index': map<string, int>, gone: set<string>)
    requires index'.Keys <= index.Keys
    ensures |index'| <= |index| && |index'.Keys - gone| <= |index.Keys - gone| && |index'.Keys - gone| <= |index'|
  {
    SubsetSize(index'.Keys, index.Keys);
    SubsetSize(index'.Keys - gone, index.Keys - gone);
    SubsetSize(index'.Keys - gone, index'.Keys);
  }

  lemma VictimsSplit(victims: seq<string>)
    requires victims != [] && NoBlank(victims)
    ensures NoBlank(victims[1..]) && Members(victims) == {victims[0]} + Members(victims[1..])
  {
    assert victims == [victims[0]] + victims[1..];
    assert forall n :: n in victims[1..] ==> n in victims;
  }

  /** One victim less to remove, whether it is gone from the index or left behind. */
  lemma VictimGone(index: map<string, int>, victims: seq<string>)
    requires victims != [] && NoBlank(victims)
    ensures NoBlank(victims[1..])
    ensures (index - {victims[0]}).Keys - Members(victims[1..]) == index.Keys - Members(victims)
    ensures |index.Keys - Members(victims[1..])| <= |index.Keys - Members(victims)| + 1
  {
    VictimsSplit(victims);
    OneLess(index, victims[0], Members(victims[1..]));
  }

  lemma OneLess(index: map<string, int>, victim: string, rest: set<string>)
    ensures (index - {victim}).Keys - rest == index.Keys - ({victim} + rest)
    ensures |index.Keys - rest| <= |index.Keys - ({victim} + rest)| + 1
  {
    var left := index.Keys - ({victim} + rest);
    SubsetSize(index.Keys - rest, left + {victim});
  }

  // ---------- accounts ----------

  /** What the account of a caller that does not move depends on. */
  lemma Recount(cfg: Config, s: State, s': State, d: nat, lost: nat, lost': nat)
    requires d in s.callers && d in s'.callers && s'.callers[d] == s.callers[d]
    requires Settles(cfg, s, d, lost) && s.ticks <= s'.ticks && s'.index.Keys <= s.index.Keys
    requires |Since(s', s.callers[d].counted)| + lost' >= |Since(s, s.callers[d].counted)| + lost
    ensures Settles(cfg, s', d, lost')
  {
    hide Since, Members, NoBlank;
    var stage := s.callers[d].stage;
    LeftShrinks(s.index, s'.index, if stage.AtDel? || stage.AtZrem? then Members(stage.victims) else {});
  }

  /** ... or when the whole index is within the bound of its count. */
  lemma RecountWithin(cfg: Config, s: State, s': State, d: nat, lost: nat)
    requires d in s.callers && d in s'.callers && s'.callers[d] == s.callers[d]
    requires Settles(cfg, s, d, lost)
    requires s.ticks <= s'.ticks && |s'.index| <= cfg.max + |Since(s', s.callers[d].counted)| + lost
    ensures Settles(cfg, s', d, lost)
  {
    hide Since, Members, NoBlank;
    var stage := s.callers[d].stage;
    LeftShrinks(s'.index, s'.index, if stage.AtDel? || stage.AtZrem? then Members(stage.victims) else {});
  }

  /** One more member, and one more caller to count on. */
  lemma RecountAdded(cfg: Config, s: State, s': State, d: nat, lost: nat)
    requires d in s.callers && d in s'.callers && s'.callers[d] == s.callers[d] && Settles(cfg, s, d, lost)
    requires s.ticks <= s'.ticks
    requires InFlight(s.callers[d].stage) && !s.callers[d].stage.AtZcard? ==>
      && |Since(s', s.callers[d].counted)| == |Since(s, s.callers[d].counted)| + 1
      && |s'.index| <= |s.index| + 1
      && forall gone: set<string> :: |s'.index.Keys - gone| <= |s.index.Keys - gone| + 1
    ensures Settles(cfg, s', d, lost)
  {
    hide Since, Members, NoBlank;
  }

  lemma CountedBefore(cfg: Config, s: State, d: nat, lost: nat)
    requires d in s.callers && Settles(cfg, s, d, lost)
    ensures InFlight(s.callers[d].stage) && !s.callers[d].stage.AtZcard? ==> s.callers[d].counted <= s.ticks
  {
    hide Since, Members, NoBlank;
  }

  /** The account of a caller that works off its victims. */
  lemma DrainingAccount(cfg: Config, s: State, c: nat, victims: seq<string>, lost: nat)
    requires c in s.callers && (s.callers[c].stage == AtDel(victims) || s.callers[c].stage == AtZrem(victims))
    ensures Settles(cfg, s, c, lost) <==> Drains(cfg, s, s.callers[c], victims, lost)
  {
    hide Drains;
  }

  lemma DrainsCarries(
    cfg: Config, s: State, me: Caller, victims: seq<string>, lost: nat,
    s': State, me': Caller, victims': seq<string>, lost': nat)
    requires Drains(cfg, s, me, victims, lost)
    requires me'.added == me.added && me'.counted == me.counted && s'.ticks == s.ticks && NoBlank(victims')
    requires |Since(s', me.counted)| == |Since(s, me.counted)|
    requires |s'.index.Keys - Members(victims')| + lost <= |s.index.Keys - Members(victims)| + lost'
    ensures Drains(cfg, s', me', victims', lost')
  {
    hide Since, Members, NoBlank;
  }

  lemma DrainsFacts(cfg: Config, s: State, me: Caller, victims: seq<string>, lost: nat)
    requires Drains(cfg, s, me, victims, lost)
    ensures me.added < me.counted <= s.ticks && NoBlank(victims)
    ensures |s.index.Keys - Members(victims)| <= cfg.max + |Since(s, me.counted)| + lost
  {
    hide Since, Members, NoBlank;
  }

  // ---------- one step ----------

  /** A caller that is out of flight before and after a step that leaves the index alone. */
  lemma Grounded(cfg: Config, s: State, c: nat, s': State, lost: nat)
    requires Inv(cfg, s, lost)
    requires c in s'.callers && s'.callers == s.callers[c := s'.callers[c]]
    requires c in s.callers ==> !InFlight(s.callers[c].stage)
    requires !InFlight(s'.callers[c].stage) && !IsBlank(s'.callers[c].jti)
    requires s'.index == s.index && s'.ticks == s.ticks
    ensures Inv(cfg, s', lost)
  {
    hide Drains;
    forall d | d in s'.callers ensures Settles(cfg, s', d, lost) {
      if d != c {
        SinceSame(s, c, s', s.callers[d].counted);
        Recount(cfg, s, s', d, lost, lost);
      }
    }
    var p :| Pivot(cfg, s, p, lost);
    SinceSame(s, c, s', p);
    assert Pivot(cfg, s', p, lost);
  }

  lemma TickStep(cfg: Config, s: State, s': State, lost: nat)
    requires Inv(cfg, s, lost) && s'.callers == s.callers && s'.index == s.index && s'.ticks == s.ticks
    ensures Inv(cfg, s', lost)
  {
    hide Settles, Since;
    forall d | d in s'.callers ensures Settles(cfg, s', d, lost) {
      SinceOfCallers(s, s', s.callers[d].counted);
      Recount(cfg, s, s', d, lost, lost);
    }
    var p :| Pivot(cfg, s, p, lost);
    SinceOfCallers(s, s', p);
    assert Pivot(cfg, s', p, lost);
  }

  /** A caller may leave when the index is within the bound of a tick at or after its own ZADD. */
  lemma Leaves(cfg: Config, s: State, c: nat, s': State, stamp: nat, lost: nat)
    requires Inv(cfg, s, lost) && c in s.callers && Moves(s, c, s') && s'.callers[c].stage.Done?
    requires s.callers[c].added <= stamp <= s'.ticks && s'.index.Keys <= s.index.Keys
    requires |s'.index| <= cfg.max + |Since(s', stamp)| + lost
    ensures Inv(cfg, s', lost)
  {
    hide Drains;
    forall d | d in s'.callers ensures Settles(cfg, s', d, lost) {
      if d != c {
        LeavesOther(cfg, s, c, s', stamp, lost, d);
      }
    }
    assert Pivot(cfg, s', stamp, lost);
  }

  lemma LeavesOther(cfg: Config, s: State, c: nat, s': State, stamp: nat, lost: nat, d: nat)
    requires Inv(cfg, s, lost) && c in s.callers && Moves(s, c, s') && s'.callers[c].stage.Done?
    requires s.callers[c].added <= stamp <= s'.ticks && s'.index.Keys <= s.index.Keys
    requires |s'.index| <= cfg.max + |Since(s', stamp)| + lost
    requires d in s.callers && d != c
    ensures Settles(cfg, s', d, lost)
  {
    hide Settles, Pivot;
    var t := s.callers[d].counted;
    if c in Since(s, t) {
      assert Since(s', stamp) <= Since(s', t);
      SubsetSize(Since(s', stamp), Since(s', t));
      RecountWithin(cfg, s, s', d, lost);
    } else {
      SinceSame(s, c, s', t);
      Recount(cfg, s, s', d, lost, lost);
    }
  }

  /** Moving on within the flight changes nobody else's account. */
  lemma Flies(cfg: Config, s: State, c: nat, s': State, lost: nat)
    requires Inv(cfg, s, lost) && c in s.callers && Moves(s, c, s')
    requires InFlight(s.callers[c].stage) && InFlight(s'.callers[c].stage)
    requires s'.callers[c].added == s.callers[c].added && s'.index.Keys <= s.index.Keys
    requires Settles(cfg, s', c, lost)
    ensures Inv(cfg, s', lost)
  {
    hide Settles;
    forall d | d in s'.callers ensures Settles(cfg, s', d, lost) {
      if d != c {
        SinceSame(s, c, s', s.callers[d].counted);
        Recount(cfg, s, s', d, lost, lost);
      }
    }
    var p :| Pivot(cfg, s, p, lost);
    SinceSame(s, c, s', p);
    SubsetSize(s'.index.Keys, s.index.Keys);
    assert Pivot(cfg, s', p, lost);
  }

  /** One failure more pays for a caller that leaves early, or that leaves a victim behind. */
  lemma Forgives(cfg: Config, s: State, c: nat, s': State, lost: nat)
    requires Inv(cfg, s, lost) && c in s.callers && Moves(s, c, s') && s'.index == s.index
    requires Settles(cfg, s', c, lost + 1)
    ensures Inv(cfg, s', lost + 1)
  {
    hide Settles, Since;
    forall d | d in s'.callers ensures Settles(cfg, s', d, lost + 1) {
      if d != c {
        SinceLosesOne(s, c, s', s.callers[d].counted);
        Recount(cfg, s, s', d, lost, lost + 1);
      }
    }
    var p :| Pivot(cfg, s, p, lost);
    SinceLosesOne(s, c, s', p);
    assert Pivot(cfg, s', p, lost + 1);
  }

  // ---------- the commands ----------

  lemma ZaddDoes(cfg: Config, s: State, l: Label, s': State)
    requires Next(cfg, s, l, s') && l.Zadd?
    ensures l.c in s.callers && s.callers[l.c].stage.AtZadd? && s'.ticks == s.ticks + 1
    ensures s'.callers == s.callers[l.c := s.callers[l.c].(stage := AtZcard, added := s.ticks + 1)]
    ensures s'.index == if l.fate.NotRun? then s.index else s.index[s.callers[l.c].jti := l.score]
  {}

  lemma ZaddOther(cfg: Config, s: State, l: Label, s': State, lost: nat, d: nat)
    requires Inv(cfg, s, lost) && Next(cfg, s, l, s') && l.Zadd? && d in s.callers && d != l.c
    ensures Settles(cfg, s', d, lost)
  {
    ZaddDoes(cfg, s, l, s');
    hide Next, Settles, Since;
    if InFlight(s.callers[d].stage) && !s.callers[d].stage.AtZcard? {
      CountedBefore(cfg, s, d, lost);
      SinceTakeoff(s, l.c, s', s.callers[d].counted);
      forall gone: set<string>
        ensures |s'.index.Keys - gone| <= |s.index.Keys - gone| + 1 && |s'.index| <= |s.index| + 1
      {
        IndexPut(s.index, s.callers[l.c].jti, l.score, gone);
      }
    }
    RecountAdded(cfg, s, s', d, lost);
  }

  lemma ZaddPivot(cfg: Config, s: State, l: Label, s': State, lost: nat)
    requires Inv(cfg, s, lost) && Next(cfg, s, l, s') && l.Zadd?
    ensures exists p :: Pivot(cfg, s', p, lost)
  {
    ZaddDoes(cfg, s, l, s');
    hide Next, Settles, Since;
    var p :| Pivot(cfg, s, p, lost);
    SinceTakeoff(s, l.c, s', p);
    IndexPut(s.index, s.callers[l.c].jti, l.score, {});
    assert Pivot(cfg, s', p, lost);
  }

  lemma ZaddStep(cfg: Config, s: State, l: Label, s': State, lost: nat)
    requires Inv(cfg, s, lost) && Next(cfg, s, l, s') && l.Zadd?
    ensures Inv(cfg, s', lost)
  {
    ZaddDoes(cfg, s, l, s');
    ZaddPivot(cfg, s, l, s', lost);
    hide Next, Pivot, Drains;
    forall d | d in s'.callers ensures Settles(cfg, s', d, lost) {
      if d != l.c {
        ZaddOther(cfg, s, l, s', lost, d);
      }
    }
  }

  lemma ZcardDoes(cfg: Config, s: State, l: Label, s': State)
    requires Next(cfg, s, l, s') && l.Zcard?
    ensures l.c in s.callers && s.callers[l.c].stage.AtZcard? && Moves(s, l.c, s')
    ensures s'.index == s.index && s'.ticks == s.ticks + 1
    ensures s'.callers[l.c].added == s.callers[l.c].added && s'.callers[l.c].counted == s.ticks + 1
    ensures s'.callers[l.c].stage ==
      if l.fate.Ok? && |s.index| > cfg.max then AtZrange(|s.index| - cfg.max) else Done(true)
  {}

  lemma ZcardStep(cfg: Config, s: State, l: Label, s': State, lost: nat)
    requires Inv(cfg, s, lost) && Next(cfg, s, l, s') && l.Zcard? && Evicting(l)
    ensures Inv(cfg, s', lost)
  {
    ZcardDoes(cfg, s, l, s');
    hide Next, Since, Drains;
    assert Settles(cfg, s, l.c, lost);
    if |s.index| <= cfg.max {
      Leaves(cfg, s, l.c, s', s'.ticks, lost);
    } else {
      Flies(cfg, s, l.c, s', lost);
    }
  }

  lemma ZrangeDoes(cfg: Config, s: State, l: Label, s': State)
    requires Next(cfg, s, l, s') && l.Zrange?
    ensures l.c in s.callers && s.callers[l.c].stage.AtZrange? && Moves(s, l.c, s')
    ensures l.fate.Ok? ==> Lowest(s.index, s.callers[l.c].stage.excess, l.victims)
    ensures s'.index == s.index && s'.ticks == s.ticks
    ensures s'.callers[l.c] == s.callers[l.c].(stage := if l.fate.Ok? then NextVictim(l.victims) else Done(true))
  {
    hide Lowest;
  }

  /** The victims of a count, once gone, leave what the count wanted to leave. */
  lemma ZrangeVictims(index: map<string, int>, excess: nat, victims: seq<string>)
    requires Lowest(index, excess, victims) && forall m :: m in index ==> !IsBlank(m)
    ensures NoBlank(victims)
    ensures |index.Keys - Members(victims)| == |index| - |victims|
    ensures |victims| == if excess <= |index| then excess else |index|
  {
    MembersSize(victims);
    assert Members(victims) <= index.Keys;
    assert |index.Keys - Members(victims)| == |index.Keys| - |Members(victims)|;
  }

  lemma ZrangeStep(cfg: Config, s: State, l: Label, s': State, lost: nat)
    requires Inv(cfg, s, lost) && Next(cfg, s, l, s') && l.Zrange? && Evicting(l)
    ensures Inv(cfg, s', lost)
  {
    hide Next, Lowest, NoBlank, Members, Since, NextVictim;
    ZrangeDoes(cfg, s, l, s');
    var me, victims := s.callers[l.c], l.victims;
    ZrangeVictims(s.index, me.stage.excess, victims);
    NextVictimOf(victims);
    ZrangeKeeps(cfg, s, l.c, s', victims, lost);
  }

  lemma ZrangeKeeps(cfg: Config, s: State, c: nat, s': State, victims: seq<string>, lost: nat)
    requires Inv(cfg, s, lost) && c in s.callers && Moves(s, c, s') && s'.index == s.index && s'.ticks == s.ticks
    requires s.callers[c].stage.AtZrange? && NoBlank(victims)
    requires |s.index.Keys - Members(victims)| == |s.index| - |victims|
    requires |victims| == if s.callers[c].stage.excess <= |s.index| then s.callers[c].stage.excess else |s.index|
    requires s'.callers[c] == s.callers[c].(stage := if victims == [] then Done(true) else AtDel(victims))
    ensures Inv(cfg, s', lost)
  {
    hide Since, Members, NoBlank, Pivot;
    var me := s.callers[c];
    assert Settles(cfg, s, c, lost);
    if victims == [] {
      SinceLeft(s, c, s', me.counted);
      Leaves(cfg, s, c, s', me.counted, lost);
    } else {
      SinceFlies(s, c, s', me.counted);
      Flies(cfg, s, c, s', lost);
    }
  }

  /** A caller does not count itself: it added before it counted. */
  lemma SinceLeft(s: State, c: nat, s': State, stamp: nat)
    requires c in s.callers && Moves(s, c, s') && s.callers[c].added <= stamp && s'.callers[c].added <= stamp
    ensures Since(s', stamp) == Since(s, stamp)
  {
    SinceSame(s, c, s', stamp);
  }

  lemma SinceFlies(s: State, c: nat, s': State, stamp: nat)
    requires c in s.callers && Moves(s, c, s') && s'.callers[c].added == s.callers[c].added
    requires InFlight(s.callers[c].stage) && InFlight(s'.callers[c].stage)
    ensures Since(s', stamp) == Since(s, stamp)
  {
    SinceSame(s, c, s', stamp);
  }

  lemma DelDoes(cfg: Config, s: State, l: Label, s': State)
    requires Next(cfg, s, l, s') && l.Del?
    ensures l.c in s.callers && s.callers[l.c].stage.AtDel? && Moves(s, l.c, s')
    ensures s'.index == s.index && s'.ticks == s.ticks
    ensures s'.callers[l.c] == s.callers[l.c].(stage := AtZrem(s.callers[l.c].stage.victims))
  {}

  lemma DelStep(cfg: Config, s: State, l: Label, s': State, lost: nat)
    requires Inv(cfg, s, lost) && Next(cfg, s, l, s') && l.Del?
    ensures Inv(cfg, s', lost)
  {
    hide Next, Members, NoBlank, Since, Drains, Settles, Pivot;
    DelDoes(cfg, s, l, s');
    var me, victims := s.callers[l.c], s.callers[l.c].stage.victims;
    DrainingAccount(cfg, s, l.c, victims, lost);
    DrainsFacts(cfg, s, me, victims, lost);
    SinceFlies(s, l.c, s', me.counted);
    DrainsCarries(cfg, s, me, victims, lost, s', s'.callers[l.c], victims, lost);
    DrainingAccount(cfg, s', l.c, victims, lost);
    Flies(cfg, s, l.c, s', lost);
  }

  lemma ZremDoes(cfg: Config, s: State, l: Label, s': State)
    requires Next(cfg, s, l, s') && l.Zrem?
    ensures l.c in s.callers && s.callers[l.c].stage.AtZrem? && s.callers[l.c].stage.victims != []
    ensures Moves(s, l.c, s') && s'.ticks == s.ticks
    ensures s'.callers[l.c] == s.callers[l.c].(stage := NextVictim(s.callers[l.c].stage.victims[1..]))
    ensures s'.index == if l.fate.NotRun? then s.index else s.index - {s.callers[l.c].stage.victims[0]}
  {}

  lemma ZremStep(cfg: Config, s: State, l: Label, s': State, lost: nat)
    requires Inv(cfg, s, lost) && Next(cfg, s, l, s') && l.Zrem? && Evicting(l)
    ensures Inv(cfg, s', lost)
  {
    hide Next, Settles, Pivot, NextVictim;
    ZremDoes(cfg, s, l, s');
    ZremKeeps(cfg, s, l.c, s', s.callers[l.c].stage.victims, lost);
  }

  lemma ZremKeeps(cfg: Config, s: State, c: nat, s': State, victims: seq<string>, lost: nat)
    requires Inv(cfg, s, lost) && c in s.callers && Moves(s, c, s') && s'.ticks == s.ticks
    requires s.callers[c].stage == AtZrem(victims) && victims != []
    requires s'.callers[c] == s.callers[c].(stage := NextVictim(victims[1..]))
    requires s'.index == s.index - {victims[0]}
    ensures Inv(cfg, s', lost)
  {
    hide Since, Members, NoBlank, Drains, Settles, Pivot, NextVictim;
    var me, rest := s.callers[c], victims[1..];
    DrainingAccount(cfg, s, c, victims, lost);
    DrainsFacts(cfg, s, me, victims, lost);
    VictimGone(s.index, victims);
    NextVictimOf(rest);
    SinceLeft(s, c, s', me.counted);
    if rest == [] {
      NothingLeft(s'.index, rest);
      Leaves(cfg, s, c, s', me.counted, lost);
    } else {
      DrainsCarries(cfg, s, me, victims, lost, s', s'.callers[c], rest, lost);
      DrainingAccount(cfg, s', c, rest, lost);
      Flies(cfg, s, c, s', lost);
    }
  }

  lemma NothingLeft(index: map<string, int>, victims: seq<string>)
    requires victims == []
    ensures index.Keys - Members(victims) == index.Keys
  {}

  /** A failed ZCARD or ZRANGE, or a skipped ZREM, costs one member. */
  lemma FailedStep(cfg: Config, s: State, l: Label, s': State, lost: nat)
    requires Inv(cfg, s, lost) && Next(cfg, s, l, s') && !Evicting(l)
    ensures Inv(cfg, s', lost + 1)
  {
    hide Next, Settles, Pivot, NextVictim;
    if l.Zcard? {
      ZcardDoes(cfg, s, l, s');
      DoneSettles(cfg, s', l.c, lost + 1);
    } else if l.Zrange? {
      ZrangeDoes(cfg, s, l, s');
      DoneSettles(cfg, s', l.c, lost + 1);
    } else {
      ZremDoes(cfg, s, l, s');
      ZremSkips(cfg, s, l.c, s', s.callers[l.c].stage.victims, lost);
    }
    Forgives(cfg, s, l.c, s', lost);
  }

  lemma DoneSettles(cfg: Config, s: State, c: nat, lost: nat)
    requires c in s.callers && s.callers[c].stage.Done?
    ensures Settles(cfg, s, c, lost)
  {}

  lemma ZremSkips(cfg: Config, s: State, c: nat, s': State, victims: seq<string>, lost: nat)
    requires c in s.callers && Moves(s, c, s') && s'.ticks == s.ticks && s'.index == s.index
    requires s.callers[c].stage == AtZrem(victims) && victims != [] && Settles(cfg, s, c, lost)
    requires s'.callers[c] == s.callers[c].(stage := NextVictim(victims[1..]))
    ensures Settles(cfg, s', c, lost + 1)
  {
    hide Since, Members, NoBlank, Drains, Settles, NextVictim;
    var me, rest := s.callers[c], victims[1..];
    DrainingAccount(cfg, s, c, victims, lost);
    DrainsFacts(cfg, s, me, victims, lost);
    VictimGone(s.index, victims);
    NextVictimOf(rest);
    if rest == [] {
      DoneSettles(cfg, s', c, lost + 1);
    } else {
      SinceLeft(s, c, s', me.counted);
      DrainsCarries(cfg, s, me, victims, lost, s', s'.callers[c], rest, lost + 1);
      DrainingAccount(cfg, s', c, rest, lost + 1);
    }
  }

  lemma QuietDoes(cfg: Config, s: State, l: Label, s': State)
    requires Next(cfg, s, l, s') && (l.Begin? || l.Set? || l.Fall?)
    ensures l.c in s'.callers && s'.callers == s.callers[l.c := s'.callers[l.c]]
    ensures l.c in s.callers ==> !InFlight(s.callers[l.c].stage)
    ensures !InFlight(s'.callers[l.c].stage)
    ensures
      if l.Begin? then Normal(s'.callers[l.c].jti)
      else l.c in s.callers && s'.callers[l.c].jti == s.callers[l.c].jti
    ensures s'.index == s.index && s'.ticks == s.ticks
  {
    hide Marks, Normal, Live;
  }

  lemma QuietStep(cfg: Config, s: State, l: Label, s': State, lost: nat)
    requires Inv(cfg, s, lost) && Next(cfg, s, l, s') && (l.Begin? || l.Set? || l.Fall?)
    ensures Inv(cfg, s', lost)
  {
    QuietDoes(cfg, s, l, s');
    hide Next, Settles, Pivot, IsBlank, Normal;
    if l.Begin? {
      NormalIsNotBlank(s'.callers[l.c].jti);
    }
    Grounded(cfg, s, l.c, s', lost);
  }

  /** Every step keeps the invariant; one that fails to evict costs one member. */
  lemma StepInv(cfg: Config, s: State, l: Label, s': State, lost: nat)
    requires Inv(cfg, s, lost) && Next(cfg, s, l, s')
    ensures Inv(cfg, s', lost + if Evicting(l) then 0 else 1)
  {
    if l.Tick? {
      TickDoes(cfg, s, l, s');
    }
    hide Next, Inv, Evicting;
    if !Evicting(l) {
      FailedStep(cfg, s, l, s', lost);
    } else {
      match l
      case Zadd(_, _, _) => ZaddStep(cfg, s, l, s', lost);
      case Zcard(_, _) => ZcardStep(cfg, s, l, s', lost);
      case Zrange(_, _, _) => ZrangeStep(cfg, s, l, s', lost);
      case Del(_, _) => DelStep(cfg, s, l, s', lost);
      case Zrem(_, _) => ZremStep(cfg, s, l, s', lost);
      case Tick(_) => TickStep(cfg, s, s', lost);
      case _ => QuietStep(cfg, s, l, s', lost);
    }
  }

  lemma TickDoes(cfg: Config, s: State, l: Label, s': State)
    requires Next(cfg, s, l, s') && l.Tick?
    ensures s'.callers == s.callers && s'.index == s.index && s'.ticks == s.ticks
  {}

  // ---------- whole runs ----------

  lemma InitInv(cfg: Config, s: State)
    requires cfg.Valid() && Init(s)
    ensures Inv(cfg, s, 0)
  {
    assert Pivot(cfg, s, 0, 0);
  }

  lemma {:induction false} RunInv(cfg: Config, ss: seq<State>, ls: seq<Label>, n: nat)
    requires IsInterleaving(cfg, ss, ls) && n <= |ls|
    ensures Inv(cfg, ss[n], Failures(ls[..n]))
  {
    hide Inv, Next, Init;
    if n == 0 {
      InitInv(cfg, ss[0]);
    } else {
      RunInv(cfg, ss, ls, n - 1);
      StepInv(cfg, ss[n - 1], ls[n - 1], ss[n], Failures(ls[..n - 1]));
      assert ls[..n][..n - 1] == ls[..n - 1];
    }
  }

  /**
   In every interleaving, whatever fails, the index exceeds `max` by at most the number of callers in flight
   and the number of steps that failed to evict.
   */
  lemma IndexBoundWithFailures(cfg: Config, ss: seq<State>, ls: seq<Label>, n: nat)
    requires IsInterleaving(cfg, ss, ls) && n <= |ls|
    ensures |ss[n].index| <= cfg.max + |Flying(ss[n])| + Failures(ls[..n])
  {
    RunInv(cfg, ss, ls, n);
    hide Next, Settles;
    var p :| Pivot(cfg, ss[n], p, Failures(ls[..n]));
    SubsetSize(Since(ss[n], p), Flying(ss[n]));
  }

  lemma {:induction false} NoFailures(ls: seq<Label>)
    requires forall k :: 0 <= k < |ls| ==> Evicting(ls[k])
    ensures Failures(ls) == 0
  {
    if ls != [] {
      NoFailures(ls[..|ls| - 1]);
    }
  }

  /** Without such failures the overshoot is that of the callers in flight; with none in flight there is none. */
  lemma IndexBound(cfg: Config, ss: seq<State>, ls: seq<Label>, n: nat)
    requires IsInterleaving(cfg, ss, ls) && n <= |ls|
    requires forall k :: 0 <= k < n ==> Evicting(ls[k])
    ensures |ss[n].index| <= cfg.max + |Flying(ss[n])|
    ensures Flying(ss[n]) == {} ==> |ss[n].index| <= cfg.max
  {
    hide IsInterleaving, Evicting;
    NoFailures(ls[..n]);
    IndexBoundWithFailures(cfg, ss, ls, n);
  }
}
