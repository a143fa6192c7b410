/**
 Runs of `MarkIfNew` calls one at a time, with any fate of their SETs: which live keys the index has, and when a call
 is refused, by Redis and by the fallback.
 */
module SwitchRuns {
  import opened Text
  import opened MemoryReplay
  import opened RedisProtocol
  import opened RedisBound
  import opened RedisBackend
  import opened ReplaySwitch

  // ---------- runs of calls, one at a time ----------

  /** The call leaves a live key that the index does not know: its SET was carried out and only the reply was lost. */
  predicate Loses(cfg: Config, fate: Fate, k: Keys, jti: string, now: int) {
    fate.Lost? && cfg.TtlMs() > 0 && !Alive(k, jti, now) && jti !in k.index
  }

  lemma SwitchKeepsIndex(
    cfg: Config, fate: Fate, k: Keys, h: History, jti: string, now: int, score: int,
    k': Keys, h': History, r: MarkResult)
    requires cfg.Valid() && Indexed(k, now)
    requires Switches(cfg, fate, k, h, jti, now, score, k', h', r)
    ensures Indexed(k', now) <==> !Loses(cfg, fate, k, jti, now)
  {
    hide Steps, SerialMark;
    if fate.Ok? && cfg.TtlMs() > 0 {
      SerialIndexed(cfg, k, jti, now, score, k', r.Marked?);
    } else if Loses(cfg, fate, k, jti, now) {
      assert Alive(k', jti, now);
    }
  }

  lemma SwitchKeepsSize(
    cfg: Config, fate: Fate, k: Keys, h: History, jti: string, now: int, score: int,
    k': Keys, h': History, r: MarkResult)
    requires cfg.Valid() && |k.index| <= cfg.max
    requires Switches(cfg, fate, k, h, jti, now, score, k', h', r)
    ensures |k'.index| <= cfg.max
  {
    hide Steps;
    if fate.Ok? && cfg.TtlMs() > 0 && r.Marked? {
      var victims := Witness(cfg, k, jti, now, score, k');
      AfterEviction(cfg, k.index[jti := score], victims);
    }
  }

  datatype SwitchCall = SwitchCall(jti: string, now: int, score: int, fate: Fate)

  ghost predicate IsSwitchRun(
    cfg: Config, ks: seq<Keys>, hs: seq<History>, calls: seq<SwitchCall>, rs: seq<MarkResult>)
  {
    && cfg.Valid() && |ks| == |hs| == |calls| + 1 && |rs| == |calls| && ks[0] == Keys(map[], map[])
    && (forall i, j :: 0 <= i < j < |calls| ==> calls[i].now <= calls[j].now)
    && forall n :: 0 <= n < |calls| ==> SwitchesAt(cfg, ks, hs, calls, rs, n)
  }

  ghost predicate SwitchesAt(
    cfg: Config, ks: seq<Keys>, hs: seq<History>, calls: seq<SwitchCall>, rs: seq<MarkResult>, n: nat)
    requires n < |calls| == |rs| && |ks| == |hs| == |calls| + 1
  {
    Switches(cfg, calls[n].fate, ks[n], hs[n], calls[n].jti, calls[n].now, calls[n].score, ks[n + 1], hs[n + 1], rs[n])
  }

  /** After `n` calls every key alive at the time of the last one is in the index. */
  ghost predicate Covered(ks: seq<Keys>, calls: seq<SwitchCall>, n: nat)
    requires n <= |calls| && n < |ks|
  {
    n > 0 ==> Indexed(ks[n], calls[n - 1].now)
  }

  lemma StillIndexed(ks: seq<Keys>, calls: seq<SwitchCall>, n: nat)
    requires n < |calls| && n < |ks| && ks[0] == Keys(map[], map[]) && Covered(ks, calls, n)
    requires n > 0 ==> calls[n - 1].now <= calls[n].now
    ensures Indexed(ks[n], calls[n].now)
  {
    forall j | Alive(ks[n], j, calls[n].now) ensures j in ks[n].index {
      assert n > 0 ==> Alive(ks[n], j, calls[n - 1].now);
    }
  }

  /**
   Calls that run one at a time keep every live key in the index exactly as long as no call has its SET carried
   out and the reply lost on a key that is neither alive nor in the index. The index is within `max` throughout.
   */
  lemma {:induction false} SwitchRunKeepsIndex(
    cfg: Config, ks: seq<Keys>, hs: seq<History>, calls: seq<SwitchCall>, rs: seq<MarkResult>, n: nat)
    requires IsSwitchRun(cfg, ks, hs, calls, rs) && n <= |calls|
    ensures |ks[n].index| <= cfg.max
    ensures (forall k :: 0 <= k <= n ==> Covered(ks, calls, k)) <==>
      (forall k :: 0 <= k < n ==> !Loses(cfg, calls[k].fate, ks[k], calls[k].jti, calls[k].now))
  {
    hide Switches, Loses, Indexed;
    assert Covered(ks, calls, 0);
    if n > 0 {
      SwitchRunKeepsIndex(cfg, ks, hs, calls, rs, n - 1);
      var c := calls[n - 1];
      assert SwitchesAt(cfg, ks, hs, calls, rs, n - 1);
      SwitchKeepsSize(cfg, c.fate, ks[n - 1], hs[n - 1], c.jti, c.now, c.score, ks[n], hs[n], rs[n - 1]);
      if Covered(ks, calls, n - 1) {
        StillIndexed(ks, calls, n - 1);
        SwitchKeepsIndex(cfg, c.fate, ks[n - 1], hs[n - 1], c.jti, c.now, c.score, ks[n], hs[n], rs[n - 1]);
        assert Covered(ks, calls, n) <==> !Loses(cfg, c.fate, ks[n - 1], c.jti, c.now);
      } else {
        assert exists k :: 0 <= k < n - 1 && Loses(cfg, calls[k].fate, ks[k], calls[k].jti, calls[k].now);
      }
    }
  }

  /** Then at most `max` keys are alive after every call. */
  lemma SwitchRunLiveKeys(
    cfg: Config, ks: seq<Keys>, hs: seq<History>, calls: seq<SwitchCall>, rs: seq<MarkResult>, n: nat,
    live: set<string>)
    requires IsSwitchRun(cfg, ks, hs, calls, rs) && 0 < n <= |calls|
    requires forall k :: 0 <= k < n ==> !Loses(cfg, calls[k].fate, ks[k], calls[k].jti, calls[k].now)
    requires forall jti :: jti in live ==> Alive(ks[n], jti, calls[n - 1].now)
    ensures |live| <= cfg.max
  {
    hide Switches, Loses, Alive, Indexed;
    SwitchRunKeepsIndex(cfg, ks, hs, calls, rs, n);
    assert Covered(ks, calls, n) && Indexed(ks[n], calls[n - 1].now);
    IndexedSize(ks[n], calls[n - 1].now, live);
  }

  // ---------- refusals ----------

  /** Call `k` had its SET carried out and accepted. */
  ghost predicate WroteKey(cfg: Config, calls: seq<SwitchCall>, rs: seq<MarkResult>, k: nat, jti: string)
    requires |calls| == |rs|
  {
    && k < |calls| && calls[k].jti == jti && cfg.TtlMs() > 0
    && (calls[k].fate.Lost? || (calls[k].fate.Ok? && rs[k].Marked?))
  }

  ghost predicate KeysDated(cfg: Config, ks: seq<Keys>, calls: seq<SwitchCall>, rs: seq<MarkResult>, n: nat)
    requires |calls| == |rs| && n < |ks|
  {
    forall jti :: jti in ks[n].expiry ==> exists k: nat :: DatedBy(cfg, ks, calls, rs, n, jti, k)
  }

  ghost predicate DatedBy(
    cfg: Config, ks: seq<Keys>, calls: seq<SwitchCall>, rs: seq<MarkResult>, n: nat, jti: string, k: nat)
    requires |calls| == |rs| && n < |ks| && jti in ks[n].expiry
  {
    k < n && WroteKey(cfg, calls, rs, k, jti) && ks[n].expiry[jti] == Ms(calls[k].now) + cfg.TtlMs()
  }

  lemma SwitchExpiry(
    cfg: Config, fate: Fate, k: Keys, h: History, jti: string, now: int, score: int,
    k': Keys, h': History, r: MarkResult, j: string)
    requires Switches(cfg, fate, k, h, jti, now, score, k', h', r) && j in k'.expiry
    ensures
      || (j in k.expiry && k'.expiry[j] == k.expiry[j])
      || (j == jti && k'.expiry[j] == Ms(now) + cfg.TtlMs() && cfg.TtlMs() > 0
          && (fate.Lost? || (fate.Ok? && r.Marked?)))
  {
    hide Steps, Lowest;
    if fate.Ok? && cfg.TtlMs() > 0 && r.Marked? {
      var victims := Witness(cfg, k, jti, now, score, k');
    }
  }

  lemma {:induction false} SwitchRunDated(
    cfg: Config, ks: seq<Keys>, hs: seq<History>, calls: seq<SwitchCall>, rs: seq<MarkResult>, n: nat)
    requires IsSwitchRun(cfg, ks, hs, calls, rs) && n <= |calls|
    ensures KeysDated(cfg, ks, calls, rs, n)
  {
    hide Switches, WroteKey;
    if n > 0 {
      SwitchRunDated(cfg, ks, hs, calls, rs, n - 1);
      var c := calls[n - 1];
      assert SwitchesAt(cfg, ks, hs, calls, rs, n - 1);
      forall jti | jti in ks[n].expiry ensures exists k: nat :: DatedBy(cfg, ks, calls, rs, n, jti, k) {
        SwitchExpiry(cfg, c.fate, ks[n - 1], hs[n - 1], c.jti, c.now, c.score, ks[n], hs[n], rs[n - 1], jti);
        if jti in ks[n - 1].expiry && ks[n].expiry[jti] == ks[n - 1].expiry[jti] {
          var k: nat :| DatedBy(cfg, ks, calls, rs, n - 1, jti, k);
          assert DatedBy(cfg, ks, calls, rs, n, jti, k);
        } else {
          LastWrote(cfg, calls, rs, n - 1, jti);
          assert DatedBy(cfg, ks, calls, rs, n, jti, n - 1);
        }
      }
    }
  }

  lemma LastWrote(cfg: Config, calls: seq<SwitchCall>, rs: seq<MarkResult>, k: nat, jti: string)
    requires |calls| == |rs| && k < |calls| && calls[k].jti == jti && cfg.TtlMs() > 0
    requires calls[k].fate.Lost? || (calls[k].fate.Ok? && rs[k].Marked?)
    ensures WroteKey(cfg, calls, rs, k, jti)
  {}

  lemma RefusedByRedis(
    cfg: Config, fate: Fate, k: Keys, h: History, jti: string, now: int, score: int,
    k': Keys, h': History, r: MarkResult)
    requires Switches(cfg, fate, k, h, jti, now, score, k', h', r) && fate.Ok? && cfg.TtlMs() > 0
    ensures r.ReplayDetected? ==> jti in k.expiry && Ms(now) <= k.expiry[jti]
  {
    hide Steps, Lowest;
  }

  /** A call that Redis refuses has an earlier one that wrote the identifier, no more than the time to live before. */
  lemma SwitchRefusedOnlyIfRecent(
    cfg: Config, ks: seq<Keys>, hs: seq<History>, calls: seq<SwitchCall>, rs: seq<MarkResult>, n: nat)
    returns (k: nat)
    requires IsSwitchRun(cfg, ks, hs, calls, rs) && n < |calls|
    requires calls[n].fate.Ok? && cfg.TtlMs() > 0 && rs[n].ReplayDetected?
    ensures k < n && WroteKey(cfg, calls, rs, k, calls[n].jti)
    ensures Ms(calls[n].now) - Ms(calls[k].now) <= cfg.TtlMs()
  {
    hide Switches, WroteKey;
    var c := calls[n];
    SwitchRunDated(cfg, ks, hs, calls, rs, n);
    assert SwitchesAt(cfg, ks, hs, calls, rs, n);
    RefusedByRedis(cfg, c.fate, ks[n], hs[n], c.jti, c.now, c.score, ks[n + 1], hs[n + 1], rs[n]);
    k :| DatedBy(cfg, ks, calls, rs, n, c.jti, k);
  }

  /** Call `k` was accepted by the fallback. */
  ghost predicate FellBack(cfg: Config, calls: seq<SwitchCall>, rs: seq<MarkResult>, k: nat, e: Accepted)
    requires |calls| == |rs|
  {
    && k < |calls| && !(calls[k].fate.Ok? && cfg.TtlMs() > 0) && rs[k].Marked?
    && calls[k].jti == e.jti && calls[k].now == e.at
  }

  ghost predicate LogKnown(cfg: Config, hs: seq<History>, calls: seq<SwitchCall>, rs: seq<MarkResult>, n: nat)
    requires |calls| == |rs| && n < |hs|
  {
    forall i :: 0 <= i < |hs[n].log| ==> FellBackBefore(cfg, calls, rs, n, hs[n].log[i])
  }

  ghost predicate FellBackBefore(cfg: Config, calls: seq<SwitchCall>, rs: seq<MarkResult>, n: nat, e: Accepted)
    requires |calls| == |rs|
  {
    exists k: nat :: k < n && FellBack(cfg, calls, rs, k, e)
  }

  lemma FallbackStep(
    cfg: Config, fate: Fate, k: Keys, h: History, jti: string, now: int, score: int,
    k': Keys, h': History, r: MarkResult)
    requires cfg.Valid() && MemoryReplay.Inv(h, cfg.ttl, cfg.max)
    requires Switches(cfg, fate, k, h, jti, now, score, k', h', r)
    ensures MemoryReplay.Inv(h', cfg.ttl, cfg.max)
    ensures h'.log == if !(fate.Ok? && cfg.TtlMs() > 0) && r.Marked? then h.log + [Accepted(jti, now)] else h.log
  {
    hide SerialMark, Marks, MemoryReplay.Inv;
    if !(fate.Ok? && cfg.TtlMs() > 0) {
      var o :| Steps(h, cfg.ttl, cfg.max, jti, now, h', o) && r == if o.Fresh? then Marked else ReplayDetected;
      MemoryReplay.StepInv(h, cfg.ttl, cfg.max, jti, now, h', o);
    }
  }

  lemma {:induction false} FallbackRun(
    cfg: Config, ks: seq<Keys>, hs: seq<History>, calls: seq<SwitchCall>, rs: seq<MarkResult>, n: nat)
    requires IsSwitchRun(cfg, ks, hs, calls, rs) && n <= |calls| && Starts(hs[0])
    ensures MemoryReplay.Inv(hs[n], cfg.ttl, cfg.max) && LogKnown(cfg, hs, calls, rs, n)
  {
    hide Switches, MemoryReplay.Inv;
    if n == 0 {
      StartsInv(hs[0], cfg.ttl, cfg.max);
    } else {
      FallbackRun(cfg, ks, hs, calls, rs, n - 1);
      var c := calls[n - 1];
      assert SwitchesAt(cfg, ks, hs, calls, rs, n - 1);
      FallbackStep(cfg, c.fate, ks[n - 1], hs[n - 1], c.jti, c.now, c.score, ks[n], hs[n], rs[n - 1]);
      forall i | 0 <= i < |hs[n].log| ensures FellBackBefore(cfg, calls, rs, n, hs[n].log[i]) {
        if i < |hs[n - 1].log| {
          assert hs[n].log[i] == hs[n - 1].log[i];
          assert FellBackBefore(cfg, calls, rs, n - 1, hs[n - 1].log[i]);
        } else {
          assert FellBack(cfg, calls, rs, n - 1, hs[n].log[i]);
        }
      }
    }
  }

  lemma RefusedByFallback(h: History, ttl: int, max: int, jti: string, now: int, h': History) returns (i: nat)
    requires MemoryReplay.Inv(h, ttl, max) && Steps(h, ttl, max, jti, now, h', Replayed)
    ensures i < |h.log| && h.log[i].jti == jti && now - h.log[i].at < 2 * ttl
  {
    MemoryReplay.StepInv(h, ttl, max, jti, now, h', Replayed);
    var e := Accepted(jti, h'.mem.items[jti]);
    assert e in h'.log;
    i :| 0 <= i < |h.log| && h.log[i] == e;
    assert Retains(h', ttl, max);
  }

  /**
   A call that the fallback refuses has an earlier one that the fallback accepted, less than twice that time before.
   */
  lemma FallbackRefusedOnlyIfRecent(
    cfg: Config, ks: seq<Keys>, hs: seq<History>, calls: seq<SwitchCall>, rs: seq<MarkResult>, n: nat)
    returns (k: nat)
    requires IsSwitchRun(cfg, ks, hs, calls, rs) && n < |calls| && Starts(hs[0])
    requires !(calls[n].fate.Ok? && cfg.TtlMs() > 0) && rs[n].ReplayDetected?
    ensures k < n && FellBack(cfg, calls, rs, k, Accepted(calls[n].jti, calls[k].now))
    ensures calls[n].now - calls[k].now < 2 * cfg.ttl
  {
    var c := calls[n];
    FallbackRun(cfg, ks, hs, calls, rs, n);
    assert SwitchesAt(cfg, ks, hs, calls, rs, n);
    hide SerialMark, MemoryReplay.Inv, Steps, AfterFailedSet;
    assert Steps(hs[n], cfg.ttl, cfg.max, c.jti, c.now, hs[n + 1], Replayed);
    var i := RefusedByFallback(hs[n], cfg.ttl, cfg.max, c.jti, c.now, hs[n + 1]);
    assert FellBackBefore(cfg, calls, rs, n, hs[n].log[i]);
    k :| k < n && FellBack(cfg, calls, rs, k, hs[n].log[i]);
  }
}
