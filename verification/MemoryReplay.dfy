/**
 The in-memory replay cache: a map from token identifiers to the time they were seen, purged lazily
 and bounded by evicting an oldest entry. Times are integer nanoseconds.
 */
module MemoryReplay {
  import opened Text

  const DEFAULT_TTL: int := 600_000_000_000
  const DEFAULT_MAX: int := 10000

  datatype Mem = Mem(items: map<string, int>, last: int)

  datatype Outcome = Replayed | Fresh(victim: Option<string>)

  // ---------- one call on values ----------

  /** What `purgeExpired` leaves: nothing happens until `ttl` has passed since the last purge. */
  function Purged(m: Mem, ttl: int, now: int): Mem {
    if now - m.last < ttl then m
    else Mem(map k | k in m.items && m.items[k] >= now - ttl :: m.items[k], now)
  }

  ghost predicate IsOldest(items: map<string, int>, k: string) {
    k in items && forall o :: o in items ==> items[k] <= items[o]
  }

  /**
   One `markIfNewInMemory`. It is a relation because Go ranges over a map in any order, so any of
   several equally old entries may be the one that is evicted.
   */
  ghost predicate Marks(m: Mem, ttl: int, max: int, jti: string, now: int, m': Mem, o: Outcome) {
    var p := Purged(m, ttl, now);
    if jti in p.items then
      o == Replayed && m' == p
    else if |p.items| < max then
      o == Fresh(None) && m' == p.(items := p.items[jti := now])
    else
      && o.Fresh? && o.victim.Some?
      && IsOldest(p.items, o.victim.value)
      && m' == p.(items := (p.items - {o.victim.value})[jti := now])
  }

  // ---------- runs, with the history of acceptances ----------

  datatype Accepted = Accepted(jti: string, at: int)

  /** A cache, everything it ever accepted in order, and the latest time any call has used. */
  datatype History = History(mem: Mem, log: seq<Accepted>, clock: int)

  predicate Normal(jti: string) {
    jti != "" && Trim(jti) == jti
  }

  ghost predicate Starts(h: History) {
    h.mem == Mem(map[], h.clock) && h.log == []
  }

  ghost predicate Steps(h: History, ttl: int, max: int, jti: string, now: int, h': History, o: Outcome) {
    && Normal(jti) && h.clock <= now == h'.clock
    && Marks(h.mem, ttl, max, jti, now, h'.mem, o)
    && h'.log == if o.Fresh? then h.log + [Accepted(jti, now)] else h.log
  }

  /** The other identifiers among the first `n` acceptances that were accepted no earlier than number `i`. */
  function Others(log: seq<Accepted>, i: nat, n: nat): set<string>
    requires i < |log| && n <= |log|
  {
    set k | 0 <= k < n && log[k].at >= log[i].at && log[k].jti != log[i].jti :: log[k].jti
  }

  /** Number `i` is still held, or its time to live is over, or `max` others came since. */
  ghost predicate Accounted(h: History, ttl: int, max: int, i: nat)
    requires i < |h.log|
  {
    var a := h.log[i];
    || (a.jti in h.mem.items && h.mem.items[a.jti] >= a.at)
    || a.at + ttl < h.clock
    || |Others(h.log, i, |h.log|)| >= max
  }

  /** At most `max` entries with proper keys, each logged and each younger than `2 * ttl`. */
  ghost predicate Retains(h: History, ttl: int, max: int) {
    && |h.mem.items| <= max
    && (forall k :: k in h.mem.items ==> Normal(k))
    && (forall k :: k in h.mem.items ==> Accepted(k, h.mem.items[k]) in h.log)
    && (forall k :: k in h.mem.items ==> h.mem.last - ttl <= h.mem.items[k] <= h.clock)
    && h.mem.last <= h.clock < h.mem.last + ttl
  }

  ghost predicate Ordered(h: History) {
    && (forall i :: 0 <= i < |h.log| ==> h.log[i].at <= h.clock)
    && (forall i, j :: 0 <= i < j < |h.log| ==> h.log[i].at <= h.log[j].at)
  }

  /** Accepting an identifier again within `ttl` needs `max` other acceptances in between. */
  ghost predicate Bounded(log: seq<Accepted>, ttl: int, max: int) {
    forall i, j {:trigger Others(log, i, j)} ::
      0 <= i < j < |log| && log[i].jti == log[j].jti && log[j].at <= log[i].at + ttl ==>
        |Others(log, i, j)| >= max
  }

  ghost predicate Inv(h: History, ttl: int, max: int) {
    && ttl > 0 && max > 0
    && Retains(h, ttl, max)
    && Ordered(h)
    && (forall i :: 0 <= i < |h.log| ==> Accounted(h, ttl, max, i))
    && Bounded(h.log, ttl, max)
  }

  lemma StartsInv(h: History, ttl: int, max: int)
    requires ttl > 0 && max > 0 && Starts(h)
    ensures Inv(h, ttl, max)
  {}

  lemma SubsetSize<T>(a: set<T>, b: set<T>)
    requires a <= b
    ensures |a| <= |b|
  {
    assert b == a + (b - a);
  }

  lemma OthersGrow(log: seq<Accepted>, e: Accepted, i: nat, n: nat)
    requires i < |log| && n <= |log|
    ensures Others(log + [e], i, n) == Others(log, i, n)
    ensures |Others(log + [e], i, |log| + 1)| >= |Others(log, i, |log|)|
  {
    assert Others(log, i, |log|) <= Others(log + [e], i, |log| + 1) by {
      forall x | x in Others(log, i, |log|) ensures x in Others(log + [e], i, |log| + 1) {
        var k :| 0 <= k < |log| && log[k].at >= log[i].at && log[k].jti != log[i].jti && log[k].jti == x;
        assert (log + [e])[k] == log[k];
      }
    }
    SubsetSize(Others(log, i, |log|), Others(log + [e], i, |log| + 1));
    assert forall k :: 0 <= k < n ==> (log + [e])[k] == log[k];
  }

  /**
   The step that matters: evicting the oldest entry of a full cache means that all the other entries,
   and the newcomer, were accepted no earlier than the victim.
   */
  lemma EvictionHasWitnesses(h: History, ttl: int, max: int, jti: string, now: int, h': History, o: Outcome, i: nat)
    requires Inv(h, ttl, max) && Steps(h, ttl, max, jti, now, h', o) && o.Fresh? && o.victim.Some?
    requires i < |h.log| && h.log[i].jti == o.victim.value && h.mem.items[h.log[i].jti] >= h.log[i].at
    ensures |Others(h'.log, i, |h'.log|)| >= max
  {
    var p := Purged(h.mem, ttl, now);
    var v := o.victim.value;
    var rest := p.items.Keys - {v};
    var found := Others(h'.log, i, |h'.log|);
    forall k | k in rest ensures k in found {
      var n :| 0 <= n < |h.log| && h.log[n] == Accepted(k, h.mem.items[k]);
      assert h'.log[n] == h.log[n] && h'.log[i] == h.log[i];
    }
    assert h'.log[|h.log|] == Accepted(jti, now);
    assert rest + {jti} <= found;
    SubsetSize(rest + {jti}, found);
  }

  /** An entry that survives the purge and is not evicted is held as before, or renewed. */
  lemma HeldStays(m: Mem, ttl: int, max: int, jti: string, now: int, m': Mem, o: Outcome, k: string)
    requires Marks(m, ttl, max, jti, now, m', o)
    requires k in m.items && m.items[k] <= now && m.items[k] >= now - ttl
    requires k == jti || o.Replayed? || o.victim != Some(k)
    ensures k in m'.items && m'.items[k] >= m.items[k]
  {}

  lemma HeldTimes(h: History, ttl: int, max: int, k: string)
    requires Retains(h, ttl, max)
    ensures k in h.mem.items ==> h.mem.items[k] <= h.clock
  {}

  lemma OldAccounts(h: History, ttl: int, max: int, jti: string, now: int, h': History, o: Outcome, i: nat)
    requires Inv(h, ttl, max) && Steps(h, ttl, max, jti, now, h', o) && i < |h.log|
    ensures Accounted(h', ttl, max, i)
  {
    hide Marks, Retains, Bounded;
    var a := h.log[i];
    assert h'.log[i] == a && Accounted(h, ttl, max, i);
    HeldTimes(h, ttl, max, a.jti);
    if a.jti in h.mem.items && a.at <= h.mem.items[a.jti] && h.mem.items[a.jti] >= now - ttl {
      if o.Fresh? && o.victim == Some(a.jti) && a.jti != jti {
        EvictionHasWitnesses(h, ttl, max, jti, now, h', o, i);
      } else {
        HeldStays(h.mem, ttl, max, jti, now, h'.mem, o, a.jti);
      }
    } else if o.Fresh? {
      OthersGrow(h.log, Accepted(jti, now), i, 0);
    }
  }

  lemma StepAccounts(h: History, ttl: int, max: int, jti: string, now: int, h': History, o: Outcome, i: nat)
    requires Inv(h, ttl, max) && Steps(h, ttl, max, jti, now, h', o) && i < |h'.log|
    ensures Accounted(h', ttl, max, i)
  {
    if i < |h.log| {
      OldAccounts(h, ttl, max, jti, now, h', o, i);
    }
  }

  lemma StepSize(m: Mem, ttl: int, max: int, jti: string, now: int, m': Mem, o: Outcome)
    requires max > 0 && |m.items| <= max && Marks(m, ttl, max, jti, now, m', o)
    ensures |m'.items| <= max
    ensures m'.items.Keys <= m.items.Keys + {jti}
  {
    var p := Purged(m, ttl, now);
    SubsetSize(p.items.Keys, m.items.Keys);
    if o.Fresh? {
      if o.victim.Some? {
        assert m'.items.Keys == p.items.Keys - {o.victim.value} + {jti};
      } else {
        assert m'.items.Keys == p.items.Keys + {jti};
      }
    }
  }

  lemma StepLogged(h: History, ttl: int, max: int, jti: string, now: int, h': History, o: Outcome, k: string)
    requires Inv(h, ttl, max) && Steps(h, ttl, max, jti, now, h', o)
    requires k in h'.mem.items
    ensures Normal(k)
    ensures Accepted(k, h'.mem.items[k]) in h'.log
    ensures h'.mem.last - ttl <= h'.mem.items[k] <= h'.clock
  {
    if o.Fresh? && k == jti {
      assert Accepted(jti, now) == h'.log[|h.log|];
    } else {
      assert Accepted(k, h.mem.items[k]) in h.log;
    }
  }

  lemma StepRetains(h: History, ttl: int, max: int, jti: string, now: int, h': History, o: Outcome)
    requires Inv(h, ttl, max) && Steps(h, ttl, max, jti, now, h', o)
    ensures Retains(h', ttl, max)
  {
    StepSize(h.mem, ttl, max, jti, now, h'.mem, o);
    forall k | k in h'.mem.items
      ensures Normal(k) && Accepted(k, h'.mem.items[k]) in h'.log
      ensures h'.mem.last - ttl <= h'.mem.items[k] <= h'.clock
    {
      StepLogged(h, ttl, max, jti, now, h', o, k);
    }
  }

  /** A logged acceptance that is no longer held within its time to live has its `max` others. */
  lemma GoneHasOthers(h: History, ttl: int, max: int, jti: string, now: int, h': History, o: Outcome, i: nat)
    requires Inv(h, ttl, max) && Steps(h, ttl, max, jti, now, h', o) && o.Fresh?
    requires i < |h.log| && h.log[i].jti == jti && now <= h.log[i].at + ttl
    ensures |Others(h.log, i, |h.log|)| >= max
  {
    assert Accounted(h, ttl, max, i);
  }

  lemma StepBounded(h: History, ttl: int, max: int, jti: string, now: int, h': History, o: Outcome)
    requires Inv(h, ttl, max) && Steps(h, ttl, max, jti, now, h', o)
    ensures Bounded(h'.log, ttl, max)
  {
    hide Marks, Retains, Accounted, Others;
    if o.Fresh? {
      forall i, j | 0 <= i < j < |h'.log| && h'.log[i].jti == h'.log[j].jti && h'.log[j].at <= h'.log[i].at + ttl
        ensures |Others(h'.log, i, j)| >= max
      {
        OthersGrow(h.log, Accepted(jti, now), i, j);
        assert h'.log[i] == h.log[i];
        if j < |h.log| {
          assert h'.log[j] == h.log[j];
          assert |Others(h.log, i, j)| >= max;
        } else {
          GoneHasOthers(h, ttl, max, jti, now, h', o, i);
        }
      }
    }
  }

  lemma StepOrdered(h: History, ttl: int, max: int, jti: string, now: int, h': History, o: Outcome)
    requires Ordered(h) && Steps(h, ttl, max, jti, now, h', o)
    ensures Ordered(h')
  {}

  lemma StepInv(h: History, ttl: int, max: int, jti: string, now: int, h': History, o: Outcome)
    requires Inv(h, ttl, max) && Steps(h, ttl, max, jti, now, h', o)
    ensures Inv(h', ttl, max)
  {
    hide Steps, Retains, Ordered, Accounted, Bounded;
    StepRetains(h, ttl, max, jti, now, h', o);
    StepOrdered(h, ttl, max, jti, now, h', o);
    StepBounded(h, ttl, max, jti, now, h', o);
    forall i | 0 <= i < |h'.log| ensures Accounted(h', ttl, max, i) {
      StepAccounts(h, ttl, max, jti, now, h', o, i);
    }
  }

  lemma Stepped(h: History, ttl: int, max: int, jti: string, now: int, h': History, o: Outcome)
    requires Inv(h, ttl, max) && Normal(jti) && h.clock <= now == h'.clock
    requires Marks(h.mem, ttl, max, jti, now, h'.mem, o)
    requires h'.log == if o.Fresh? then h.log + [Accepted(jti, now)] else h.log
    ensures Steps(h, ttl, max, jti, now, h', o) && Inv(h', ttl, max)
  {
    hide Inv, Marks;
    StepInv(h, ttl, max, jti, now, h', o);
  }

  lemma NoEmptyKey(h: History, ttl: int, max: int)
    requires Inv(h, ttl, max)
    ensures max > 0 && "" !in h.mem.items
  {}

  // ---------- whole runs ----------

  datatype Call = Call(jti: string, now: int)

  ghost predicate IsRun(hs: seq<History>, calls: seq<Call>, os: seq<Outcome>, ttl: int, max: int) {
    && |hs| == |calls| + 1 && |os| == |calls| && Starts(hs[0])
    && forall n :: 0 <= n < |calls| ==> Steps(hs[n], ttl, max, calls[n].jti, calls[n].now, hs[n + 1], os[n])
  }

  /** The identifiers other than that of call `a` that calls before `b` got accepted at times from that of `a` on. */
  function AcceptedBetween(calls: seq<Call>, os: seq<Outcome>, a: nat, b: nat): set<string>
    requires a < |calls| && b <= |calls| == |os|
  {
    set n | 0 <= n < b && os[n].Fresh? && calls[n].now >= calls[a].now && calls[n].jti != calls[a].jti :: calls[n].jti
  }

  lemma {:induction false} RunInv(hs: seq<History>, calls: seq<Call>, os: seq<Outcome>, ttl: int, max: int, n: nat)
    requires IsRun(hs, calls, os, ttl, max) && ttl > 0 && max > 0 && n <= |calls|
    ensures Inv(hs[n], ttl, max)
  {
    if n > 0 {
      RunInv(hs, calls, os, ttl, max, n - 1);
      StepInv(hs[n - 1], ttl, max, calls[n - 1].jti, calls[n - 1].now, hs[n], os[n - 1]);
    }
  }

  /** Every logged acceptance is that of an accepted call. */
  lemma {:induction false} LoggedCall(
    hs: seq<History>, calls: seq<Call>, os: seq<Outcome>, ttl: int, max: int, n: nat, k: nat) returns (c: nat)
    requires IsRun(hs, calls, os, ttl, max) && n <= |calls| && k < |hs[n].log|
    ensures c < n && os[c].Fresh? && hs[n].log[k] == Accepted(calls[c].jti, calls[c].now)
  {
    if k < |hs[n - 1].log| {
      c := LoggedCall(hs, calls, os, ttl, max, n - 1, k);
    } else {
      c := n - 1;
    }
  }

  lemma {:induction false} LogGrows(
    hs: seq<History>, calls: seq<Call>, os: seq<Outcome>, ttl: int, max: int, m: nat, n: nat)
    requires IsRun(hs, calls, os, ttl, max) && m <= n <= |calls|
    ensures hs[m].log <= hs[n].log
  {
    if m < n {
      LogGrows(hs, calls, os, ttl, max, m, n - 1);
    }
  }

  /**
   The replay window: in any run, whatever the map order and the ties between timestamps, a second call
   with an accepted identifier within `ttl` is rejected, unless `max` other identifiers were accepted in
   between at times no earlier than the first.
   */
  lemma ReplayWindow(hs: seq<History>, calls: seq<Call>, os: seq<Outcome>, ttl: int, max: int, a: nat, b: nat)
    requires IsRun(hs, calls, os, ttl, max) && ttl > 0 && max > 0
    requires a < b < |calls| && calls[a].jti == calls[b].jti && os[a].Fresh?
    requires calls[b].now <= calls[a].now + ttl
    ensures os[b].Replayed? || |AcceptedBetween(calls, os, a, b)| >= max
  {
    if os[b].Fresh? {
      RunInv(hs, calls, os, ttl, max, b + 1);
      LogGrows(hs, calls, os, ttl, max, a + 1, b);
      var log, i, j := hs[b + 1].log, |hs[a].log|, |hs[b].log|;
      assert log[i] == hs[a + 1].log[i] == Accepted(calls[a].jti, calls[a].now);
      assert log[j] == Accepted(calls[b].jti, calls[b].now);
      assert |Others(log, i, j)| >= max;
      forall x | x in Others(log, i, j) ensures x in AcceptedBetween(calls, os, a, b) {
        var k :| 0 <= k < j && log[k].at >= log[i].at && log[k].jti != log[i].jti && log[k].jti == x;
        var c := LoggedCall(hs, calls, os, ttl, max, b, k);
      }
      SubsetSize(Others(log, i, j), AcceptedBetween(calls, os, a, b));
    }
  }

  /** A call is rejected as a replay only for an acceptance of the same identifier less than `2 * ttl` ago. */
  lemma RejectedOnlyIfRecent(hs: seq<History>, calls: seq<Call>, os: seq<Outcome>, ttl: int, max: int, b: nat)
    returns (a: nat)
    requires IsRun(hs, calls, os, ttl, max) && ttl > 0 && max > 0
    requires b < |calls| && os[b].Replayed?
    ensures a < b && os[a].Fresh? && calls[a].jti == calls[b].jti && calls[b].now - calls[a].now < 2 * ttl
  {
    RunInv(hs, calls, os, ttl, max, b);
    RunInv(hs, calls, os, ttl, max, b + 1);
    var jti := calls[b].jti;
    var e := Accepted(jti, hs[b + 1].mem.items[jti]);
    var k :| 0 <= k < |hs[b].log| && hs[b].log[k] == e;
    a := LoggedCall(hs, calls, os, ttl, max, b, k);
  }

  // ---------- rejections beyond the time to live ----------

  /** A held identifier is held with the time of its latest acceptance. */
  ghost predicate Latest(h: History) {
    forall i :: 0 <= i < |h.log| && h.log[i].jti in h.mem.items ==> h.log[i].at <= h.mem.items[h.log[i].jti]
  }

  lemma LatestStep(h: History, ttl: int, max: int, jti: string, now: int, h': History, o: Outcome)
    requires Latest(h) && Ordered(h) && Steps(h, ttl, max, jti, now, h', o)
    ensures Latest(h')
  {
    hide Normal;
    forall i | 0 <= i < |h'.log| && h'.log[i].jti in h'.mem.items ensures h'.log[i].at <= h'.mem.items[h'.log[i].jti] {
      assert i < |h.log| ==> h'.log[i] == h.log[i];
      assert h'.log[i].jti != jti ==> h'.log[i].jti in h.mem.items;
    }
  }

  lemma {:induction false} LatestRun(hs: seq<History>, calls: seq<Call>, os: seq<Outcome>, ttl: int, max: int, n: nat)
    requires IsRun(hs, calls, os, ttl, max) && ttl > 0 && max > 0 && n <= |calls|
    ensures Latest(hs[n])
  {
    hide Latest, Steps;
    if n == 0 {
      StartsLatest(hs[0]);
    } else {
      LatestRun(hs, calls, os, ttl, max, n - 1);
      RunInv(hs, calls, os, ttl, max, n - 1);
      LatestStep(hs[n - 1], ttl, max, calls[n - 1].jti, calls[n - 1].now, hs[n], os[n - 1]);
    }
  }

  lemma StartsLatest(h: History)
    requires Starts(h)
    ensures Latest(h)
  {}

  /** The entry is older than its time to live, and the purge is not due yet. */
  predicate Overstays(m: Mem, ttl: int, jti: string, now: int) {
    jti in m.items && m.items[jti] < now - ttl && now - m.last < ttl
  }

  /** Call `a` accepted the identifier of call `b` no more than `ttl` before it. */
  ghost predicate AcceptedWithin(calls: seq<Call>, os: seq<Outcome>, ttl: int, a: nat, b: nat)
    requires b < |calls| == |os|
  {
    a < b && os[a].Fresh? && calls[a].jti == calls[b].jti && calls[b].now - calls[a].now <= ttl
  }

  /** The log entry of an accepted call. */
  lemma CallLogged(hs: seq<History>, calls: seq<Call>, os: seq<Outcome>, ttl: int, max: int, a: nat, b: nat)
    returns (k: nat)
    requires IsRun(hs, calls, os, ttl, max) && a < b <= |calls| && os[a].Fresh?
    ensures k < |hs[b].log| && hs[b].log[k] == Accepted(calls[a].jti, calls[a].now)
  {
    hide Marks;
    k := |hs[a].log|;
    LogGrows(hs, calls, os, ttl, max, a + 1, b);
    assert hs[a + 1].log[k] == Accepted(calls[a].jti, calls[a].now);
  }

  /**
   The documented window: a rejected call has an acceptance at most `ttl` before it, in every run, exactly unless
   its entry has outlived the time to live while the purge is not due.
   */
  lemma RejectedWithinTtl(hs: seq<History>, calls: seq<Call>, os: seq<Outcome>, ttl: int, max: int, b: nat)
    requires IsRun(hs, calls, os, ttl, max) && ttl > 0 && max > 0
    requires b < |calls| && os[b].Replayed?
    ensures (exists a :: AcceptedWithin(calls, os, ttl, a, b)) <==>
      !Overstays(hs[b].mem, ttl, calls[b].jti, calls[b].now)
  {
    RunInv(hs, calls, os, ttl, max, b);
    LatestRun(hs, calls, os, ttl, max, b);
    var jti, now := calls[b].jti, calls[b].now;
    HeldWhenReplayed(hs[b], ttl, max, jti, now, hs[b + 1]);
    hide Steps;
    if a :| AcceptedWithin(calls, os, ttl, a, b) {
      var k := CallLogged(hs, calls, os, ttl, max, a, b);
      assert hs[b].log[k].jti in hs[b].mem.items;
    }
    if !Overstays(hs[b].mem, ttl, jti, now) {
      var k :| 0 <= k < |hs[b].log| && hs[b].log[k] == Accepted(jti, hs[b].mem.items[jti]);
      var a := LoggedCall(hs, calls, os, ttl, max, b, k);
      assert AcceptedWithin(calls, os, ttl, a, b);
    }
  }

  lemma HeldWhenReplayed(h: History, ttl: int, max: int, jti: string, now: int, h': History)
    requires Steps(h, ttl, max, jti, now, h', Replayed)
    ensures jti in h.mem.items && (h.mem.items[jti] >= now - ttl || now - h.mem.last < ttl)
  {}

  /**
   The bound of `RejectedOnlyIfRecent` is met exactly: whatever the identifier, the time to live and the capacity,
   a call at age `2 * ttl - 1` can still be rejected.
   */
  lemma LateRejection(ttl: int, max: int, jti: string, start: int)
    returns (hs: seq<History>, calls: seq<Call>, os: seq<Outcome>)
    requires ttl > 0 && max > 0 && Normal(jti)
    ensures IsRun(hs, calls, os, ttl, max) && |calls| == 3
    ensures os[0].Fresh? && os[1].Replayed? && os[2].Replayed?
    ensures calls[0].jti == calls[1].jti == calls[2].jti == jti && calls[2].now - calls[0].now == 2 * ttl - 1
  {
    hide Normal;
    calls := [Call(jti, start), Call(jti, start + ttl), Call(jti, start + 2 * ttl - 1)];
    os := [Fresh(None), Replayed, Replayed];
    var h0 := History(Mem(map[], start), [], start);
    var h1 := History(Mem(map[jti := start], start), [Accepted(jti, start)], start);
    var h2 := History(Mem(map[jti := start], start + ttl), [Accepted(jti, start)], start + ttl);
    var h3 := h2.(clock := start + 2 * ttl - 1);
    hs := [h0, h1, h2, h3];
    assert Purged(h1.mem, ttl, start + ttl) == h2.mem;
    assert Steps(h0, ttl, max, jti, start, h1, os[0]);
    assert Steps(h1, ttl, max, jti, start + ttl, h2, os[1]);
    assert Steps(h2, ttl, max, jti, start + 2 * ttl - 1, h3, os[2]);
  }

  // ---------- the cache as an object ----------

  datatype MarkResult = Marked | MissingJti | ReplayDetected

  class ReplayCache {
    const ttl: int
    const max: int
    var items: map<string, int>
    var last: int
    ghost var log: seq<Accepted>
    ghost var clock: int

    ghost function Past(): History
      reads this
    {
      History(Mem(items, last), log, clock)
    }

    ghost predicate Valid()
      reads this
    {
      Inv(Past(), ttl, max)
    }

    /** `newInMemoryReplayCache`; the two settings fall back to defaults when they are not positive. */
    constructor (ttl: int, max: int, now: int)
      ensures Valid() && Starts(Past()) && clock == now
      ensures this.ttl == if ttl <= 0 then DEFAULT_TTL else ttl
      ensures this.max == if max <= 0 then DEFAULT_MAX else max
    {
      this.ttl := if ttl <= 0 then DEFAULT_TTL else ttl;
      this.max := if max <= 0 then DEFAULT_MAX else max;
      items, last := map[], now;
      log, clock := [], now;
      new;
      StartsInv(Past(), this.ttl, this.max);
    }

    /** `MarkIfNew` without a backend: a blank identifier is refused before the cache is touched. */
    method MarkIfNew(jti: string, now: int) returns (r: MarkResult)
      requires Valid() && clock <= now
      modifies this
      ensures Valid()
      ensures r.MissingJti? <==> IsBlank(jti)
      ensures r.MissingJti? ==> Past() == old(Past())
      ensures !r.MissingJti? ==>
        exists o :: Steps(old(Past()), ttl, max, Trim(jti), now, Past(), o) && (r.Marked? <==> o.Fresh?)
    {
      if Trim(jti) == "" {
        return MissingJti;
      }
      TrimIsTight(jti);
      r := MarkIfNewInMemory(Trim(jti), now);
    }

    method MarkIfNewInMemory(jti: string, now: int) returns (r: MarkResult)
      requires Valid() && clock <= now && Normal(jti)
      modifies this
      ensures Valid() && !r.MissingJti?
      ensures exists o :: Steps(old(Past()), ttl, max, jti, now, Past(), o) && (r.Marked? <==> o.Fresh?)
    {
      ghost var before := Past();
      NoEmptyKey(before, ttl, max);
      hide Inv, Normal, Steps;
      clock := now;
      PurgeExpired(now);
      if jti in items {
        Stepped(before, ttl, max, jti, now, Past(), Replayed);
        return ReplayDetected;
      }
      ghost var o := Fresh(None);
      if |items| >= max {
        ghost var victim := EvictOldest();
        o := Fresh(Some(victim));
      }
      items := items[jti := now];
      log := log + [Accepted(jti, now)];
      Stepped(before, ttl, max, jti, now, Past(), o);
      return Marked;
    }

    method PurgeExpired(now: int)
      modifies this`items, this`last
      ensures Mem(items, last) == Purged(old(Mem(items, last)), ttl, now)
    {
      if now - last < ttl {
        return;
      }
      var cutoff := now - ttl;
      var todo := items.Keys;
      while todo != {}
        invariant todo <= items.Keys <= old(items).Keys
        invariant forall k :: k in items ==> items[k] == old(items)[k]
        invariant forall k :: k in old(items) && k !in todo ==> (k in items <==> old(items)[k] >= cutoff)
        decreases |todo|
      {
        var k :| k in todo;
        todo := todo - {k};
        if items[k] < cutoff {
          items := items - {k};
        }
      }
      last := now;
    }

    /** The empty string marks "no candidate yet", which is sound because no key is empty. */
    method EvictOldest() returns (ghost victim: string)
      requires items != map[] && "" !in items
      modifies this`items
      ensures IsOldest(old(items), victim) && items == old(items) - {victim}
    {
      var oldestJti, oldestSeen := "", 0;
      var todo := items.Keys;
      while todo != {}
        invariant todo <= items.Keys
        invariant oldestJti == "" ==> todo == items.Keys
        invariant oldestJti != "" ==> oldestJti in items && items[oldestJti] == oldestSeen
        invariant oldestJti != "" ==> forall k :: k in items && k !in todo ==> oldestSeen <= items[k]
        decreases |todo|
      {
        var k :| k in todo;
        todo := todo - {k};
        if oldestJti == "" || items[k] < oldestSeen {
          oldestJti, oldestSeen := k, items[k];
        }
      }
      assert oldestJti == "" ==> items.Keys == {};
      victim := oldestJti;
      if oldestJti != "" {
        items := items - {oldestJti};
      }
    }
  }
}
