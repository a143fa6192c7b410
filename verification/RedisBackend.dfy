/**
 The Redis backend when its calls run one at a time: the commands as methods of a store, `markIfNew` as the
 sequence of commands it is, and the replay window that a run of such calls keeps.
 */
module RedisBackend {
  import opened Text
  import opened MemoryReplay
  import opened RedisProtocol
  import opened RedisBound

  /** The two parts of the keyspace that the backend uses. */
  datatype Keys = Keys(expiry: map<string, int>, index: map<string, int>)

  predicate Alive(k: Keys, jti: string, now: int) {
    jti in k.expiry && Ms(now) <= k.expiry[jti]
  }

  function Excess(index: map<string, int>, max: int): nat {
    if |index| > max then |index| - max else 0
  }

  /**
   A whole call: a live key refuses; otherwise the key is set, indexed under its score, and the lowest
   members beyond `max` lose both their key and their place in the index.
   */
  ghost predicate SerialMark(cfg: Config, k: Keys, jti: string, now: int, score: int, k': Keys, accepted: bool) {
    if Alive(k, jti, now) then
      !accepted && k' == k
    else
      var index := k.index[jti := score];
      && accepted
      && exists victims ::
           && Lowest(index, Excess(index, cfg.max), victims)
           && k'.index == index - Members(victims)
           && k'.expiry == k.expiry[jti := Ms(now) + cfg.TtlMs()] - Members(victims)
  }

  /** Only live keys that the index knows, so that eviction can find them. */
  ghost predicate Indexed(k: Keys, now: int) {
    forall j :: Alive(k, j, now) ==> j in k.index
  }

  // ---------- one call ----------

  lemma AfterEviction(cfg: Config, index: map<string, int>, victims: seq<string>)
    requires cfg.Valid() && Lowest(index, Excess(index, cfg.max), victims)
    ensures Members(victims) <= index.Keys
    ensures |index - Members(victims)| == |index| - Excess(index, cfg.max)
    ensures |index - Members(victims)| <= cfg.max
  {
    MembersSize(victims);
    assert (index - Members(victims)).Keys == index.Keys - Members(victims);
  }

  lemma IndexedSize(k: Keys, now: int, live: set<string>)
    requires Indexed(k, now) && forall j :: j in live ==> Alive(k, j, now)
    ensures |live| <= |k.index|
  {
    SubsetSize(live, k.index.Keys);
  }

  /** A member above all others outlives every eviction. */
  lemma TopStays(cfg: Config, index: map<string, int>, victims: seq<string>, top: string)
    requires cfg.Valid() && Lowest(index, Excess(index, cfg.max), victims)
    requires top in index && forall m :: m in index && m != top ==> index[m] < index[top]
    ensures top !in victims
  {
    AfterEviction(cfg, index, victims);
    var rest := index - Members(victims);
    assert |rest| > 0;
    var m :| m in rest.Keys;
    if m != top {
      forall i | 0 <= i < |victims| ensures victims[i] != top {
        assert Before(index, victims[i], m);
      }
    }
  }

  lemma Witness(cfg: Config, k: Keys, jti: string, now: int, score: int, k': Keys) returns (victims: seq<string>)
    requires SerialMark(cfg, k, jti, now, score, k', true)
    ensures Lowest(k.index[jti := score], Excess(k.index[jti := score], cfg.max), victims)
    ensures k'.index == k.index[jti := score] - Members(victims)
    ensures k'.expiry == k.expiry[jti := Ms(now) + cfg.TtlMs()] - Members(victims)
  {
    victims :|
      && Lowest(k.index[jti := score], Excess(k.index[jti := score], cfg.max), victims)
      && k'.index == k.index[jti := score] - Members(victims)
      && k'.expiry == k.expiry[jti := Ms(now) + cfg.TtlMs()] - Members(victims);
  }

  /** A call whose SET is answered keeps every live key in the index. */
  lemma SerialIndexed(cfg: Config, k: Keys, jti: string, now: int, score: int, k': Keys, accepted: bool)
    requires cfg.Valid() && Indexed(k, now) && SerialMark(cfg, k, jti, now, score, k', accepted)
    ensures Indexed(k', now)
  {
    if accepted {
      hide Lowest;
      var victims := Witness(cfg, k, jti, now, score, k');
      forall j | Alive(k', j, now) ensures j in k'.index {
        assert j !in Members(victims);
        assert j == jti || Alive(k, j, now);
      }
    }
  }

  /** An accepted identifier whose score is above all others is alive and indexed, so that a repetition is refused. */
  lemma AcceptedStays(cfg: Config, k: Keys, jti: string, now: int, score: int, k': Keys)
    requires cfg.Valid() && SerialMark(cfg, k, jti, now, score, k', true)
    requires forall m :: m in k.index && m != jti ==> k.index[m] < score
    ensures Alive(k', jti, now) && jti in k'.index
  {
    hide Lowest, SerialMark, Members, Excess;
    var victims := Witness(cfg, k, jti, now, score, k');
    TopStays(cfg, k.index[jti := score], victims, jti);
    NotAmong(victims, jti);
    TtlIsNatural(cfg);
  }

  lemma TtlIsNatural(cfg: Config)
    requires cfg.Valid()
    ensures cfg.TtlMs() >= 0
  {}

  lemma NotAmong(names: seq<string>, name: string)
    requires name !in names
    ensures name !in Members(names)
  {}

  // ---------- the backend as an object ----------

  class RedisStore {
    var expiry: map<string, int>
    var index: map<string, int>

    function Contents(): Keys
      reads this
    {
      Keys(expiry, index)
    }

    /** SET key 1 NX PX ttl; the reply is nil when the key is alive. */
    method SetIfAbsent(jti: string, now: int, ttlMs: int) returns (isNil: bool)
      modifies this`expiry
      ensures isNil == old(Alive(Contents(), jti, now))
      ensures expiry == if isNil then old(expiry) else old(expiry)[jti := Ms(now) + ttlMs]
    {
      isNil := jti in expiry && Ms(now) <= expiry[jti];
      if !isNil {
        expiry := expiry[jti := Ms(now) + ttlMs];
      }
    }

    method Zadd(score: int, jti: string)
      modifies this`index
      ensures index == old(index)[jti := score]
    {
      index := index[jti := score];
    }

    method Zcard() returns (count: nat)
      ensures count == |index|
    {
      count := |index|;
    }

    /** ZRANGE index 0 n-1, by repeatedly taking the lowest member that is left. */
    method Zrange(n: nat) returns (members: seq<string>)
      ensures Lowest(index, n, members)
    {
      members := [];
      var left := index;
      while |members| < n && left != map[]
        invariant |members| <= n && |members| + |left| == |index|
        invariant forall m :: m in left ==> m in index && left[m] == index[m]
        invariant forall m :: m in index <==> m in left || m in members
        invariant forall i :: 0 <= i < |members| ==> members[i] in index && members[i] !in left
        invariant forall i, m :: 0 <= i < |members| && m in left ==> Before(index, members[i], m)
        invariant forall i, j :: 0 <= i < j < |members| ==>
          members[i] != members[j] && Before(index, members[i], members[j])
        decreases n - |members|
      {
        var low := Least(left);
        assert left.Keys - {low} == (left - {low}).Keys;
        members, left := members + [low], left - {low};
      }
    }

    static method Least(m: map<string, int>) returns (low: string)
      requires m != map[]
      ensures low in m && forall o :: o in m ==> Before(m, low, o)
    {
      low :| low in m.Keys;
      var todo := m.Keys - {low};
      LeqRefl(low);
      while todo != {}
        invariant low in m && todo <= m.Keys
        invariant forall o :: o in m && o !in todo ==> Before(m, low, o)
        decreases |todo|
      {
        var o :| o in todo;
        todo := todo - {o};
        LeqTotal(low, o);
        LeqRefl(o);
        if !Before(m, low, o) {
          forall p | p in m && p !in todo && p != o ensures Before(m, o, p) {
            BeforeTrans(m, o, low, p);
          }
          low := o;
        }
      }
    }

    method Delete(jti: string)
      modifies this`expiry
      ensures expiry == old(expiry) - {jti}
    {
      expiry := expiry - {jti};
    }

    method Zrem(jti: string)
      modifies this`index
      ensures index == old(index) - {jti}
    {
      index := index - {jti};
    }

    /** The loop over the victims: the key and then the index entry, blank names skipped. */
    method Evict(victims: seq<string>)
      requires NoBlank(victims)
      modifies this
      ensures index == old(index) - Members(victims)
      ensures expiry == old(expiry) - Members(victims)
    {
      var i := 0;
      while i < |victims|
        invariant 0 <= i <= |victims|
        invariant index == old(index) - Members(victims[..i])
        invariant expiry == old(expiry) - Members(victims[..i])
      {
        assert Members(victims[..i + 1]) == Members(victims[..i]) + {victims[i]};
        if !IsBlank(victims[i]) {
          Delete(victims[i]);
          Zrem(victims[i]);
        }
        i := i + 1;
      }
      assert victims[..i] == victims;
    }

    /**
     `markIfNew`, with one clock reading for the expiry time and one for the score. A time to live under
     a millisecond makes the server refuse the SET, which is the error result.
     */
    method MarkIfNew(cfg: Config, jti: string, now: int, score: int) returns (r: Option<bool>)
      requires cfg.Valid() && Normal(jti) && forall m :: m in index ==> !IsBlank(m)
      modifies this
      ensures r.None? <==> cfg.TtlMs() <= 0
      ensures r.None? ==> Contents() == old(Contents())
      ensures r.Some? ==> SerialMark(cfg, old(Contents()), jti, now, score, Contents(), r.value)
      ensures forall m :: m in index ==> !IsBlank(m)
    {
      ghost var before := Contents();
      if cfg.TtlMs() <= 0 {
        return None;
      }
      var isNil := SetIfAbsent(jti, now, cfg.TtlMs());
      if isNil {
        return Some(false);
      }
      Zadd(score, jti);
      var count := Zcard();
      var excess := count - cfg.max;
      if excess <= 0 {
        NoVictims(cfg, before, jti, now, score, Contents());
        return Some(true);
      }
      var victims := Zrange(excess);
      Evict(victims);
      return Some(true);
    }
  }

  lemma NoVictims(cfg: Config, k: Keys, jti: string, now: int, score: int, k': Keys)
    requires !Alive(k, jti, now) && |k'.index| <= cfg.max
    requires k' == Keys(k.expiry[jti := Ms(now) + cfg.TtlMs()], k.index[jti := score])
    ensures SerialMark(cfg, k, jti, now, score, k', true)
  {
    assert Members([]) == {};
    assert k'.index == k'.index - Members([]) && k'.expiry == k'.expiry - Members([]);
    assert Lowest(k'.index, 0, []);
  }

  lemma BeforeTrans(m: map<string, int>, a: string, b: string, c: string)
    requires a in m && b in m && c in m && Before(m, a, b) && Before(m, b, c)
    ensures Before(m, a, c)
  {
    if Leq(a, b) && Leq(b, c) {
      LeqTrans(a, b, c);
    }
  }

  // ---------- the replay window of serial runs ----------

  /** The store, everything it ever accepted in order, and the latest time any call has used. */
  datatype SerialHistory = SerialHistory(keys: Keys, log: seq<Accepted>, clock: int)

  ghost predicate SerialSteps(cfg: Config, h: SerialHistory, jti: string, now: int, h': SerialHistory, accepted: bool) {
    && Normal(jti) && h.clock <= now == h'.clock
    && SerialMark(cfg, h.keys, jti, now, now, h'.keys, accepted)
    && h'.log == if accepted then h.log + [Accepted(jti, now)] else h.log
  }

  /** Acceptance `i` still holds its key and its place, or `max` others came since. */
  ghost predicate SerialAccounted(cfg: Config, h: SerialHistory, i: nat)
    requires i < |h.log|
  {
    var a := h.log[i];
    || (a.jti in h.keys.expiry && h.keys.expiry[a.jti] >= Ms(a.at) + cfg.TtlMs()
        && a.jti in h.keys.index && h.keys.index[a.jti] >= a.at)
    || |Others(h.log, i, |h.log|)| >= cfg.max
  }

  ghost predicate SerialInv(cfg: Config, h: SerialHistory) {
    && cfg.Valid() && |h.keys.index| <= cfg.max
    && (forall k :: k in h.keys.index ==> Accepted(k, h.keys.index[k]) in h.log)
    && (forall i :: 0 <= i < |h.log| ==> SerialAccounted(cfg, h, i))
    && Bounded(h.log, cfg.Window(), cfg.max)
  }

  /** Whoever loses its place leaves `max` members behind that were all accepted no earlier. */
  lemma VictimHasWitnesses(
    cfg: Config, h: SerialHistory, jti: string, now: int, h': SerialHistory, victims: seq<string>, i: nat)
    requires SerialInv(cfg, h) && SerialSteps(cfg, h, jti, now, h', true)
    requires Lowest(h.keys.index[jti := now], Excess(h.keys.index[jti := now], cfg.max), victims)
    requires i < |h'.log| && h'.log[i].jti in victims && h.keys.index[jti := now][h'.log[i].jti] >= h'.log[i].at
    ensures |Others(h'.log, i, |h'.log|)| >= cfg.max
  {
    var index := h.keys.index[jti := now];
    var v := h'.log[i].jti;
    AfterEviction(cfg, index, victims);
    var rest := (index - Members(victims)).Keys;
    var found := Others(h'.log, i, |h'.log|);
    forall k | k in rest ensures k in found {
      var at := index[k];
      assert Accepted(k, at) in h'.log by {
        if k == jti {
          assert h'.log[|h.log|] == Accepted(jti, now);
        } else {
          assert Accepted(k, h.keys.index[k]) in h.log;
        }
      }
      var n :| 0 <= n < |h'.log| && h'.log[n] == Accepted(k, at);
      var p :| 0 <= p < |victims| && victims[p] == v;
      assert Before(index, victims[p], k);
    }
    SubsetSize(rest, found);
    assert Excess(index, cfg.max) > 0;
  }

  lemma SerialStepAccounts(cfg: Config, h: SerialHistory, jti: string, now: int, h': SerialHistory, i: nat)
    requires SerialInv(cfg, h) && SerialSteps(cfg, h, jti, now, h', true) && i < |h'.log|
    requires forall k :: 0 <= k < |h.log| ==> h.log[k].at <= h.clock
    ensures SerialAccounted(cfg, h', i)
  {
    var victims := Witness(cfg, h.keys, jti, now, now, h'.keys);
    if i < |h.log| {
      assert h'.log[i] == h.log[i] && SerialAccounted(cfg, h, i);
      OthersGrow(h.log, Accepted(jti, now), i, 0);
    }
    if |Others(h'.log, i, |h'.log|)| < cfg.max && h'.log[i].jti in victims {
      VictimHasWitnesses(cfg, h, jti, now, h', victims, i);
    }
  }

  lemma SerialStepBounded(cfg: Config, h: SerialHistory, jti: string, now: int, h': SerialHistory)
    requires SerialInv(cfg, h) && SerialSteps(cfg, h, jti, now, h', true)
    ensures Bounded(h'.log, cfg.Window(), cfg.max)
  {
    forall i, j | 0 <= i < j < |h'.log| && h'.log[i].jti == h'.log[j].jti && h'.log[j].at <= h'.log[i].at + cfg.Window()
      ensures |Others(h'.log, i, j)| >= cfg.max
    {
      OthersGrow(h.log, Accepted(jti, now), i, j);
      assert h'.log[i] == h.log[i];
      if j < |h.log| {
        assert h'.log[j] == h.log[j] && |Others(h.log, i, j)| >= cfg.max;
      } else {
        assert SerialAccounted(cfg, h, i);
      }
    }
  }

  lemma SerialStepInv(cfg: Config, h: SerialHistory, jti: string, now: int, h': SerialHistory, accepted: bool)
    requires SerialInv(cfg, h) && SerialSteps(cfg, h, jti, now, h', accepted)
    requires forall k :: 0 <= k < |h.log| ==> h.log[k].at <= h.clock
    ensures SerialInv(cfg, h') && forall k :: 0 <= k < |h'.log| ==> h'.log[k].at <= h'.clock
  {
    if accepted {
      var victims := Witness(cfg, h.keys, jti, now, now, h'.keys);
      AfterEviction(cfg, h.keys.index[jti := now], victims);
      forall i | 0 <= i < |h'.log| ensures SerialAccounted(cfg, h', i) {
        SerialStepAccounts(cfg, h, jti, now, h', i);
      }
      SerialStepBounded(cfg, h, jti, now, h');
      forall k | k in h'.keys.index ensures Accepted(k, h'.keys.index[k]) in h'.log {
        if k == jti {
          assert h'.log[|h.log|] == Accepted(jti, now);
        } else {
          assert Accepted(k, h.keys.index[k]) in h.log;
        }
      }
    } else {
      forall i | 0 <= i < |h'.log| ensures SerialAccounted(cfg, h', i) {
        assert SerialAccounted(cfg, h, i);
      }
    }
  }

  /**
   The replay window of Redis calls that run one at a time, from an empty store: an identifier accepted again
   within the window implies `max` other acceptances in between, as for the in-memory cache.
   */
  lemma {:induction false} SerialReplayWindow(
    cfg: Config, hs: seq<SerialHistory>, calls: seq<Call>, os: seq<bool>, n: nat)
    requires cfg.Valid() && |hs| == |calls| + 1 && |os| == |calls| && n <= |calls|
    requires hs[0].keys == Keys(map[], map[]) && hs[0].log == []
    requires forall k :: 0 <= k < |calls| ==> SerialSteps(cfg, hs[k], calls[k].jti, calls[k].now, hs[k + 1], os[k])
    ensures SerialInv(cfg, hs[n]) && Bounded(hs[n].log, cfg.Window(), cfg.max)
    ensures forall k :: 0 <= k < |hs[n].log| ==> hs[n].log[k].at <= hs[n].clock
  {
    if n > 0 {
      SerialReplayWindow(cfg, hs, calls, os, n - 1);
      SerialStepInv(cfg, hs[n - 1], calls[n - 1].jti, calls[n - 1].now, hs[n], os[n - 1]);
    }
  }
}
