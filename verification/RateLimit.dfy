/**
 The fixed-window rate limiter: one bucket per composite key, opened by the first call that finds none or an
 expired one. Times and windows are integer nanoseconds.
 */
module RateLimit {
  import opened Text
  import opened Decimal

  const NANOS_PER_MILLI: int := 1_000_000

  datatype Bucket = Bucket(startAt: int, count: int)

  datatype Request = Request(identity: string, max: int, window: int, now: int)

  /** Requests that reach the table; the others are answered at once. */
  predicate Counted(r: Request) {
    r.max > 0 && r.window > 0 && !IsBlank(r.identity)
  }

  /** fmt.Sprintf("%d|%s|%d", ...) */
  function Key(r: Request): string
    requires Counted(r)
  {
    Itoa(r.max) + "|" + Trim(r.identity) + "|" + Itoa(r.window / NANOS_PER_MILLI)
  }

  /** `Allow` on values: the new table and the answer. */
  function Answer(state: map<string, Bucket>, r: Request): (map<string, Bucket>, bool) {
    if r.max <= 0 then (state, true)
    else if IsBlank(r.identity) then (state, false)
    else if r.window <= 0 then (state, true)
    else
      var found := if Key(r) in state then Some(state[Key(r)]) else None;
      var (b, ok) := Serve(found, r.max, r.window, r.now);
      (state[Key(r) := b], ok)
  }

  /** One call on one bucket. */
  function Serve(b: Option<Bucket>, max: int, window: int, now: int): (Bucket, bool) {
    match b
    case None => (Bucket(now, 1), true)
    case Some(b) =>
      if now - b.startAt >= window then (Bucket(now, 1), true)
      else if b.count >= max then (b, false)
      else (b.(count := b.count + 1), true)
  }

  class RateLimiter {
    var state: map<string, Bucket>

    constructor ()
      ensures state == map[]
    {
      state := map[];
    }

    method Allow(r: Request) returns (ok: bool)
      modifies this
      ensures (state, ok) == Answer(old(state), r)
    {
      if r.max <= 0 {
        return true;
      }
      if Trim(r.identity) == "" {
        return false;
      }
      if r.window <= 0 {
        return true;
      }
      var key := Key(r);
      if key !in state {
        state := state[key := Bucket(r.now, 1)];
        return true;
      }
      var entry := state[key];
      if r.now - entry.startAt >= r.window {
        state := state[key := Bucket(r.now, 1)];
        return true;
      }
      if entry.count >= r.max {
        assert state == state[key := entry];
        return false;
      }
      state := state[key := Bucket(entry.startAt, entry.count + 1)];
      return true;
    }
  }

  // ---------- the composite key ----------

  lemma NoBarInDigits(s: string)
    requires AllDigits(s)
    ensures '|' !in s
  {}

  /** The text after the last bar is determined by the whole, and so is what is before it. */
  lemma {:induction false} LastBarSplits(a: string, b: string, c: string, d: string)
    requires '|' !in b && '|' !in d && a + "|" + b == c + "|" + d
    ensures a == c && b == d
  {
    var s := a + "|" + b;
    assert s[|a|] == '|' && s[|c|] == '|';
    assert forall i :: |a| < i < |s| ==> s[i] == b[i - |a| - 1];
    assert forall i :: |c| < i < |s| ==> s[i] == d[i - |c| - 1];
    assert |a| == |c|;
    assert s[..|a|] == a && s[..|a|] == c;
    assert s[|a| + 1..] == b && s[|a| + 1..] == d;
  }

  /** The key determines the limit, the trimmed identity and the window in milliseconds, bars in the identity or not. */
  lemma KeyInjective(r: Request, q: Request)
    requires Counted(r) && Counted(q) && Key(r) == Key(q)
    ensures r.max == q.max && Trim(r.identity) == Trim(q.identity)
    ensures r.window / NANOS_PER_MILLI == q.window / NANOS_PER_MILLI
  {
    var m, n := Itoa(r.max), Itoa(q.max);
    var i, j := Trim(r.identity), Trim(q.identity);
    var v, w := Itoa(r.window / NANOS_PER_MILLI), Itoa(q.window / NANOS_PER_MILLI);
    NoBarInDigits(v);
    NoBarInDigits(w);
    LastBarSplits(m + "|" + i, v, n + "|" + j, w);
    ItoaInjective(r.window / NANOS_PER_MILLI, q.window / NANOS_PER_MILLI);
    NoBarInDigits(m);
    NoBarInDigits(n);
    IndexOfIs(m, '|', i);
    IndexOfIs(n, '|', j);
    assert m + ['|'] + i == m + "|" + i == n + "|" + j == n + ['|'] + j;
    assert (m + "|" + i)[..|m|] == m && (n + "|" + j)[..|n|] == n;
    assert (m + "|" + i)[|m| + 1..] == i && (n + "|" + j)[|n| + 1..] == j;
    ItoaInjective(r.max, q.max);
  }

  // ---------- runs and isolation ----------

  function Table(rs: seq<Request>): map<string, Bucket> {
    if rs == [] then map[] else Answer(Table(rs[..|rs| - 1]), rs[|rs| - 1]).0
  }

  /** The answer to request `n` of a run. */
  function AnswerAt(rs: seq<Request>, n: nat): bool
    requires n < |rs|
  {
    Answer(Table(rs[..n]), rs[n]).1
  }

  /** Two requests that share limit, trimmed identity and window in milliseconds. */
  predicate SameTriple(r: Request, q: Request) {
    && Counted(r) && Counted(q) && r.max == q.max && Trim(r.identity) == Trim(q.identity)
    && r.window / NANOS_PER_MILLI == q.window / NANOS_PER_MILLI
  }

  function Restrict(rs: seq<Request>, q: Request): seq<Request> {
    if rs == [] then []
    else
      var rest := Restrict(rs[..|rs| - 1], q);
      if SameTriple(rs[|rs| - 1], q) then rest + [rs[|rs| - 1]] else rest
  }

  function Lookup(state: map<string, Bucket>, q: Request): Option<Bucket>
    requires Counted(q)
  {
    if Key(q) in state then Some(state[Key(q)]) else None
  }

  /** A request changes the bucket of its own triple and of no other. */
  lemma AnswerBucket(state: map<string, Bucket>, r: Request, q: Request)
    requires Counted(q)
    ensures Lookup(Answer(state, r).0, q) ==
      if SameTriple(r, q) then Some(Serve(Lookup(state, q), r.max, r.window, r.now).0) else Lookup(state, q)
    ensures SameTriple(r, q) ==> Answer(state, r).1 == Serve(Lookup(state, q), r.max, r.window, r.now).1
  {
    hide Key;
    if SameTriple(r, q) {
      SameTripleSameKey(r, q);
    } else if Counted(r) && Key(r) == Key(q) {
      KeyInjective(r, q);
    }
  }

  lemma SameTripleSameKey(r: Request, q: Request)
    requires Counted(q) && SameTriple(r, q)
    ensures Key(r) == Key(q)
  {}

  lemma {:induction false} RestrictKeepsBucket(rs: seq<Request>, q: Request)
    requires Counted(q)
    ensures Lookup(Table(rs), q) == Lookup(Table(Restrict(rs, q)), q)
  {
    if rs != [] {
      hide Lookup, Answer, SameTriple, Counted;
      var r, rest := rs[|rs| - 1], rs[..|rs| - 1];
      RestrictKeepsBucket(rest, q);
      AnswerBucket(Table(rest), r, q);
      if SameTriple(r, q) {
        var sub := Restrict(rest, q);
        assert (sub + [r])[..|sub|] == sub;
        AnswerBucket(Table(sub), r, q);
      }
    }
  }

  /**
   Isolation: the answer to a request is the one it gets when every request with another limit, identity or
   window is deleted from the run.
   */
  lemma Isolation(rs: seq<Request>, n: nat)
    requires n < |rs| && Counted(rs[n])
    ensures
      var sub := Restrict(rs[..n + 1], rs[n]);
      |sub| > 0 && sub[|sub| - 1] == rs[n] && AnswerAt(rs, n) == AnswerAt(sub, |sub| - 1)
  {
    var q := rs[n];
    var sub := Restrict(rs[..n], q);
    assert rs[..n + 1][..n] == rs[..n];
    assert Restrict(rs[..n + 1], q) == sub + [q];
    assert (sub + [q])[..|sub|] == sub;
    RestrictKeepsBucket(rs[..n], q);
    AnswerBucket(Table(rs[..n]), q, q);
    AnswerBucket(Table(sub), q, q);
  }

  // ---------- the sliding-interval bound ----------

  /** The allowed calls of one bucket: their times, and the positions at which a fresh bucket was opened. */
  datatype Lane = Lane(bucket: Option<Bucket>, times: seq<int>, starts: seq<nat>)

  function Opens(b: Option<Bucket>, window: int, now: int): bool {
    b.None? || now - b.value.startAt >= window
  }

  function LaneStep(l: Lane, max: int, window: int, now: int): Lane {
    var (b, ok) := Serve(l.bucket, max, window, now);
    Lane(Some(b),
         if ok then l.times + [now] else l.times,
         if Opens(l.bucket, window, now) then l.starts + [|l.times|] else l.starts)
  }

  predicate Sorted(times: seq<int>) {
    forall i, j :: 0 <= i < j < |times| ==> times[i] <= times[j]
  }

  /** The position of every opening is that of a call, at most `max` and at least a window after the one before. */
  predicate Apart(times: seq<int>, starts: seq<nat>, max: int, window: int) {
    && (forall k :: 0 <= k < |starts| ==> starts[k] < |times|)
    && (forall k :: 0 <= k < |starts| - 1 ==>
         && starts[k] < starts[k + 1] <= starts[k] + max
         && times[starts[k + 1]] >= times[starts[k]] + window)
  }

  /** Buckets hold at most `max` calls and open at least `window` apart. */
  predicate Spaced(l: Lane, max: int, window: int) {
    && Sorted(l.times)
    && Apart(l.times, l.starts, max, window)
    && match l.bucket
       case None => l.times == [] && l.starts == []
       case Some(b) =>
         var last := |l.starts| - 1;
         && 0 <= last && l.starts[0] == 0
         && b.count == |l.times| - l.starts[last] <= max
         && b.startAt == l.times[l.starts[last]]
  }

  lemma ApartLonger(times: seq<int>, starts: seq<nat>, max: int, window: int, now: int)
    requires Apart(times, starts, max, window)
    ensures Apart(times + [now], starts, max, window)
  {}

  lemma ApartOpened(times: seq<int>, starts: seq<nat>, max: int, window: int)
    requires times != [] && Apart(times[..|times| - 1], starts, max, window)
    requires starts != [] ==>
      && |times| - 1 <= starts[|starts| - 1] + max
      && times[|times| - 1] >= times[starts[|starts| - 1]] + window
    ensures Apart(times, starts + [|times| - 1], max, window)
  {}

  lemma LaneStepSpaced(l: Lane, max: int, window: int, asked: int, now: int)
    requires max > 0 && 0 < window <= asked && Spaced(l, max, window)
    requires forall i :: 0 <= i < |l.times| ==> l.times[i] <= now
    ensures Spaced(LaneStep(l, max, asked, now), max, window)
  {
    if Opens(l.bucket, asked, now) {
      OpenSpaced(l, max, window, now);
    } else if l.bucket.value.count < max {
      ApartLonger(l.times, l.starts, max, window, now);
    }
  }

  lemma SortedLater(times: seq<int>, now: int)
    requires Sorted(times) && forall i :: 0 <= i < |times| ==> times[i] <= now
    ensures Sorted(times + [now])
  {}

  lemma OpenSpaced(l: Lane, max: int, window: int, now: int)
    requires max > 0 && window > 0 && Spaced(l, max, window) && Opens(l.bucket, window, now)
    requires forall i :: 0 <= i < |l.times| ==> l.times[i] <= now
    ensures Spaced(Lane(Some(Bucket(now, 1)), l.times + [now], l.starts + [|l.times|]), max, window)
  {
    hide Sorted;
    var times := l.times + [now];
    assert times[..|times| - 1] == l.times;
    ApartOpened(times, l.starts, max, window);
    SortedLater(l.times, now);
  }

  /** The first bucket opened at or after position `i`, if positions up to `i + max - 1` exist beyond it. */
  lemma {:induction false} NextStart(l: Lane, max: int, window: int, i: nat, k: nat) returns (j: nat)
    requires Spaced(l, max, window) && max > 0 && l.bucket.Some?
    requires k < |l.starts| && l.starts[k] <= i && i + max - 1 < |l.times|
    ensures k <= j < |l.starts| && i <= l.starts[j] <= i + max - 1
    decreases |l.starts| - k
  {
    if l.starts[k] == i {
      j := k;
    } else if l.starts[k + 1] <= i {
      j := NextStart(l, max, window, i, k + 1);
    } else {
      j := k + 1;
    }
  }

  /** Any `2 * max` consecutive allowed calls span at least the window. */
  lemma LongSpan(l: Lane, max: int, window: int, i: nat)
    requires Spaced(l, max, window) && max > 0 && i + 2 * max - 1 < |l.times|
    ensures l.times[i + 2 * max - 1] >= l.times[i] + window
  {
    var j := NextStart(l, max, window, i, 0);
    var p := l.starts[j + 1];
    assert i <= l.starts[j] && p <= i + 2 * max - 1;
  }

  function InInterval(times: seq<int>, from: int, window: int): set<nat> {
    set i: nat | 0 <= i < |times| && from <= times[i] < from + window
  }

  lemma {:induction false} RangeSize(s: set<nat>, lo: nat, hi: nat)
    requires forall x :: x in s ==> lo <= x < hi
    ensures |s| <= if lo <= hi then hi - lo else 0
    decreases hi - lo
  {
    if lo < hi {
      RangeSize(s - {lo}, lo + 1, hi);
    } else {
      assert s == {};
    }
  }

  lemma LaneBound(l: Lane, max: int, window: int, from: int)
    requires Spaced(l, max, window) && max > 0 && window > 0
    ensures |InInterval(l.times, from, window)| <= 2 * max - 1
  {
    var s := InInterval(l.times, from, window);
    if s != {} {
      var i := Lowest(s);
      forall x | x in s ensures i <= x < i + 2 * max - 1 {
        if i + 2 * max - 1 < |l.times| {
          LongSpan(l, max, window, i);
        }
      }
      RangeSize(s, i, i + 2 * max - 1);
    }
  }

  lemma {:induction false} Lowest(s: set<nat>) returns (i: nat)
    requires s != {}
    ensures i in s && forall x :: x in s ==> i <= x
    decreases s
  {
    var first :| first in s;
    i := first;
    if s != {first} {
      var j := Lowest(s - {first});
      i := if j < first then j else first;
      assert forall x :: x in s ==> x == first || x in s - {first};
    }
  }

  /** The lane of the triple of `q` in a run. */
  function Track(rs: seq<Request>, q: Request): Lane {
    if rs == [] then Lane(None, [], [])
    else
      var l, r := Track(rs[..|rs| - 1], q), rs[|rs| - 1];
      if SameTriple(r, q) then LaneStep(l, r.max, r.window, r.now) else l
  }

  predicate ClockForward(rs: seq<Request>) {
    forall i, j :: 0 <= i < j < |rs| ==> rs[i].now <= rs[j].now
  }

  /** No request of the triple of `q` asks for a shorter window than `q`, within the same number of milliseconds. */
  predicate NoShorter(rs: seq<Request>, q: Request) {
    forall i :: 0 <= i < |rs| && SameTriple(rs[i], q) ==> rs[i].window >= q.window
  }

  lemma {:induction false} TrackBucket(rs: seq<Request>, q: Request)
    requires Counted(q)
    ensures Track(rs, q).bucket == Lookup(Table(rs), q)
  {
    if rs != [] {
      hide Lookup, Answer, SameTriple, Counted;
      var r, rest := rs[|rs| - 1], rs[..|rs| - 1];
      TrackBucket(rest, q);
      AnswerBucket(Table(rest), r, q);
    } else {
      assert Table(rs) == map[];
    }
  }

  predicate AllUpTo(times: seq<int>, now: int) {
    forall i :: 0 <= i < |times| ==> times[i] <= now
  }

  lemma PrefixOfRun(rs: seq<Request>, q: Request)
    requires rs != [] && ClockForward(rs) && NoShorter(rs, q)
    ensures ClockForward(rs[..|rs| - 1]) && NoShorter(rs[..|rs| - 1], q)
    ensures |rs| > 1 ==> rs[..|rs| - 1][|rs| - 2].now <= rs[|rs| - 1].now
  {}

  lemma LaneStepUpTo(l: Lane, max: int, window: int, now: int, later: int)
    requires AllUpTo(l.times, now) && now <= later
    ensures AllUpTo(LaneStep(l, max, window, now).times, later)
    ensures AllUpTo(l.times, later)
  {}

  lemma {:induction false} TrackSpaced(rs: seq<Request>, q: Request, now: int)
    requires Counted(q) && ClockForward(rs) && NoShorter(rs, q)
    requires rs != [] ==> rs[|rs| - 1].now <= now
    ensures Spaced(Track(rs, q), q.max, q.window) && AllUpTo(Track(rs, q).times, now)
  {
    if rs != [] {
      hide Spaced, LaneStep;
      var r, rest := rs[|rs| - 1], rs[..|rs| - 1];
      PrefixOfRun(rs, q);
      TrackSpaced(rest, q, r.now);
      LaneStepUpTo(Track(rest, q), r.max, r.window, r.now, now);
      if SameTriple(r, q) {
        LaneStepSpaced(Track(rest, q), q.max, q.window, r.window, r.now);
      }
    }
  }

  /** The requests of the triple of `q` that were allowed at times in the half-open interval from `from`. */
  function AllowedIn(rs: seq<Request>, q: Request, from: int): set<nat> {
    set n: nat | 0 <= n < |rs| && SameTriple(rs[n], q) && from <= rs[n].now < from + q.window && AnswerAt(rs, n)
  }

  lemma PrefixAnswers(rs: seq<Request>, m: nat)
    requires m < |rs| - 1
    ensures AnswerAt(rs, m) == AnswerAt(rs[..|rs| - 1], m)
  {
    assert rs[..m] == rs[..|rs| - 1][..m];
  }

  /** What the last request adds. */
  lemma AllowedInLast(rs: seq<Request>, q: Request, from: int)
    requires rs != [] && Counted(q)
    ensures
      var n := |rs| - 1;
      AllowedIn(rs, q, from) == AllowedIn(rs[..n], q, from) +
        if SameTriple(rs[n], q) && from <= rs[n].now < from + q.window && AnswerAt(rs, n) then {n} else {}
  {
    forall m: nat | m < |rs| - 1 ensures AnswerAt(rs, m) == AnswerAt(rs[..|rs| - 1], m) {
      PrefixAnswers(rs, m);
    }
  }

  lemma InIntervalLast(times: seq<int>, now: int, from: int, window: int)
    ensures InInterval(times + [now], from, window) ==
      InInterval(times, from, window) + if from <= now < from + window then {|times|} else {}
  {}

  /** Allowed requests and recorded times are as many, interval by interval. */
  lemma {:induction false} TrackCounts(rs: seq<Request>, q: Request, from: int)
    requires Counted(q)
    ensures |AllowedIn(rs, q, from)| == |InInterval(Track(rs, q).times, from, q.window)|
  {
    if rs != [] {
      var r, rest := rs[|rs| - 1], rs[..|rs| - 1];
      TrackCounts(rest, q, from);
      AllowedInLast(rs, q, from);
      TrackLast(rs, q);
      InIntervalLast(Track(rest, q).times, r.now, from, q.window);
    }
  }

  /** The lane records the last request exactly when it is one of the triple and allowed. */
  lemma TrackLast(rs: seq<Request>, q: Request)
    requires Counted(q) && rs != []
    ensures
      var n := |rs| - 1;
      Track(rs, q).times ==
        Track(rs[..n], q).times + if SameTriple(rs[n], q) && AnswerAt(rs, n) then [rs[n].now] else []
  {
    hide Lookup, Answer, SameTriple, Counted;
    var r, rest := rs[|rs| - 1], rs[..|rs| - 1];
    TrackBucket(rest, q);
    AnswerBucket(Table(rest), r, q);
  }

  /**
   In any run with a clock that does not go back, any half-open interval as long as the shortest window asked
   for contains at most `2 * max - 1` allowed requests of one limit, identity and window.
   */
  lemma SlidingBound(rs: seq<Request>, q: Request, from: int)
    requires Counted(q) && ClockForward(rs) && NoShorter(rs, q)
    ensures |AllowedIn(rs, q, from)| <= 2 * q.max - 1
  {
    TrackSpaced(rs, q, if rs == [] then 0 else rs[|rs| - 1].now);
    TrackCounts(rs, q, from);
    LaneBound(Track(rs, q), q.max, q.window, from);
  }

  /** For a window of whole milliseconds the bound holds of every run: no window of the same key is shorter. */
  lemma WholeMillisBound(rs: seq<Request>, q: Request, from: int)
    requires Counted(q) && ClockForward(rs) && q.window % NANOS_PER_MILLI == 0
    ensures |AllowedIn(rs, q, from)| <= 2 * q.max - 1
  {
    hide AllowedIn, Counted;
    forall i | 0 <= i < |rs| && SameTriple(rs[i], q) ensures rs[i].window >= q.window {
      WholeMillisShortest(rs[i].window, q.window);
    }
    SlidingBound(rs, q, from);
  }

  lemma WholeMillisShortest(w: int, window: int)
    requires w / NANOS_PER_MILLI == window / NANOS_PER_MILLI && window % NANOS_PER_MILLI == 0
    ensures w >= window
  {}

  // ---------- the bound is attained ----------

  function Repeat<T>(x: T, n: nat): (xs: seq<T>)
    ensures |xs| == n && forall i :: 0 <= i < n ==> xs[i] == x
  {
    if n == 0 then [] else Repeat(x, n - 1) + [x]
  }

  lemma CallFills(rs: seq<Request>, q: Request, r: Request)
    requires SameTriple(r, q) && !Opens(Track(rs, q).bucket, r.window, r.now)
    requires Track(rs, q).bucket.value.count < r.max
    ensures var b := Track(rs, q).bucket.value; Track(rs + [r], q).bucket == Some(b.(count := b.count + 1))
    ensures Track(rs + [r], q).times == Track(rs, q).times + [r.now]
  {
    hide SameTriple;
    assert (rs + [r])[..|rs|] == rs;
  }

  /** A burst that fits into the open bucket of `q` is allowed call by call. */
  lemma {:induction false} BurstFills(rs: seq<Request>, q: Request, r: Request, n: nat)
    requires SameTriple(r, q) && Track(rs, q).bucket.Some?
    requires r.now - Track(rs, q).bucket.value.startAt < r.window
    requires Track(rs, q).bucket.value.count + n <= r.max
    ensures
      var b := Track(rs, q).bucket.value;
      Track(rs + Repeat(r, n), q).bucket == Some(b.(count := b.count + n))
    ensures Track(rs + Repeat(r, n), q).times == Track(rs, q).times + Repeat(r.now, n)
  {
    hide SameTriple, Track;
    if n == 0 {
      assert rs + Repeat(r, 0) == rs;
    } else {
      BurstFills(rs, q, r, n - 1);
      CallFills(rs + Repeat(r, n - 1), q, r);
      assert rs + Repeat(r, n) == rs + Repeat(r, n - 1) + [r];
    }
  }

  /** A call that finds no bucket, or an expired one, opens a bucket and is allowed. */
  lemma CallOpens(rs: seq<Request>, q: Request, r: Request)
    requires SameTriple(r, q) && Opens(Track(rs, q).bucket, r.window, r.now)
    ensures Track(rs + [r], q).bucket == Some(Bucket(r.now, 1))
    ensures Track(rs + [r], q).times == Track(rs, q).times + [r.now]
  {
    assert (rs + [r])[..|rs|] == rs;
  }

  lemma {:induction false} IntervalSize(lo: nat, hi: nat, s: set<nat>)
    requires lo <= hi && forall x: nat :: x in s <==> lo <= x < hi
    ensures |s| == hi - lo
    decreases hi - lo
  {
    if lo < hi {
      IntervalSize(lo + 1, hi, s - {lo});
    } else {
      assert s == {};
    }
  }

  /** One call, and `max - 1` more just before its window ends. */
  function Early(first: Request): seq<Request>
    requires first.max > 0
  {
    [first] + Repeat(first.(now := first.now + first.window - 1), first.max - 1)
  }

  /** ... then `max` calls just after it has ended. */
  function Squeeze(first: Request): seq<Request>
    requires first.max > 0
  {
    var late := first.(now := first.now + first.window);
    Early(first) + [late] + Repeat(late, first.max - 1)
  }

  lemma EarlyLane(first: Request, rs: seq<Request>)
    requires Counted(first) && first.window >= 2 && rs == Early(first)
    ensures Track(rs, first).bucket == Some(Bucket(first.now, first.max))
    ensures Track(rs, first).times == [first.now] + Repeat(first.now + first.window - 1, first.max - 1)
  {
    var one := [] + [first];
    CallOpens([], first, first);
    assert Track(one, first).times == [first.now];
    var early := first.(now := first.now + first.window - 1);
    BurstFills(one, first, early, first.max - 1);
    assert rs == one + Repeat(early, first.max - 1);
  }

  lemma SqueezeTimes(first: Request, rs: seq<Request>)
    requires Counted(first) && first.window >= 2 && rs == Squeeze(first)
    ensures Track(rs, first).times ==
      [first.now] + Repeat(first.now + first.window - 1, first.max - 1)
        + [first.now + first.window] + Repeat(first.now + first.window, first.max - 1)
  {
    var late := first.(now := first.now + first.window);
    var es := Early(first);
    EarlyLane(first, es);
    CallOpens(es, first, late);
    BurstFills(es + [late], first, late, first.max - 1);
  }

  lemma SqueezeShape(first: Request, rs: seq<Request>)
    requires Counted(first) && first.window >= 2 && rs == Squeeze(first)
    ensures ClockForward(rs) && NoShorter(rs, first)
  {
    forall i | 0 <= i < |rs|
      ensures rs[i].window == first.window
      ensures rs[i].now == first.now +
        if i == 0 then 0 else if i < first.max then first.window - 1 else first.window
    {}
  }

  lemma SqueezeCount(times: seq<int>, now: int, max: int, window: int)
    requires max > 0 && window >= 2 && |times| == 2 * max && times[0] == now
    requires forall i :: 1 <= i < |times| ==> now + window - 1 <= times[i] <= now + window
    ensures |InInterval(times, now + window - 1, window)| == 2 * max - 1
  {
    IntervalSize(1, 2 * max, InInterval(times, now + window - 1, window));
  }

  /**
   For every limit and every window of two units or more, some interval does contain `2 * max - 1` allowed
   requests.
   */
  lemma BoundIsAttained(first: Request, rs: seq<Request>)
    requires Counted(first) && first.window >= 2 && rs == Squeeze(first)
    ensures ClockForward(rs) && NoShorter(rs, first)
    ensures |AllowedIn(rs, first, first.now + first.window - 1)| == 2 * first.max - 1
  {
    SqueezeShape(first, rs);
    SqueezeTimes(first, rs);
    TrackCounts(rs, first, first.now + first.window - 1);
    SqueezeCount(Track(rs, first).times, first.now, first.max, first.window);
  }

  // ---------- the windows for which the bound holds ----------

  /** The shortest window of the same number of milliseconds. */
  function Shortest(window: int): int {
    if window < NANOS_PER_MILLI then 1 else window / NANOS_PER_MILLI * NANOS_PER_MILLI
  }

  lemma ShortestIsShorter(window: int)
    requires window > 1 && window % NANOS_PER_MILLI != 0
    ensures 0 < Shortest(window) < window
    ensures Shortest(window) / NANOS_PER_MILLI == window / NANOS_PER_MILLI
  {}

  /** The same triple with the shortest window, at the moment at which that window is over. */
  function Late(q: Request): Request {
    q.(now := q.now + Shortest(q.window), window := Shortest(q.window))
  }

  /** `max` calls at once, and `max` more with the shortest window. */
  function Shared(q: Request): seq<Request>
    requires q.max > 0
  {
    [q] + Repeat(q, q.max - 1) + [Late(q)] + Repeat(Late(q), q.max - 1)
  }

  lemma FirstBurst(q: Request, rs: seq<Request>)
    requires Counted(q) && rs == [q] + Repeat(q, q.max - 1)
    ensures Track(rs, q).bucket == Some(Bucket(q.now, q.max))
    ensures Track(rs, q).times == [q.now] + Repeat(q.now, q.max - 1)
  {
    assert [] + [q] == [q];
    CallOpens([], q, q);
    hide Track;
    BurstFills([q], q, q, q.max - 1);
  }

  lemma SharedTimes(q: Request, rs: seq<Request>)
    requires Counted(q) && q.window > 1 && q.window % NANOS_PER_MILLI != 0 && rs == Shared(q)
    ensures Track(rs, q).times == [q.now] + Repeat(q.now, q.max - 1) + [Late(q).now] + Repeat(Late(q).now, q.max - 1)
  {
    hide Track, Shortest, Serve;
    var first, late := [q] + Repeat(q, q.max - 1), Late(q);
    ShortestIsShorter(q.window);
    FirstBurst(q, first);
    CallOpens(first, q, late);
    BurstFills(first + [late], q, late, q.max - 1);
  }

  lemma SharedInOrder(q: Request)
    requires Counted(q) && q.window > 1 && q.window % NANOS_PER_MILLI != 0
    ensures ClockForward(Shared(q))
  {
    ShortestIsShorter(q.window);
    hide Shortest;
    var rs := Shared(q);
    forall i | 0 <= i < |rs| ensures rs[i].now == if i < q.max then q.now else q.now + Shortest(q.window) {}
  }

  /** Every window with a fraction of a millisecond lets a run exceed the bound by one. */
  lemma SharedExceedsBound(q: Request)
    requires Counted(q) && q.window > 1 && q.window % NANOS_PER_MILLI != 0
    ensures ClockForward(Shared(q)) && |AllowedIn(Shared(q), q, q.now)| == 2 * q.max
  {
    var rs := Shared(q);
    ShortestIsShorter(q.window);
    SharedTimes(q, rs);
    SharedInOrder(q);
    TrackCounts(rs, q, q.now);
    hide Track, Shortest, Shared, AllowedIn;
    IntervalSize(0, 2 * q.max, InInterval(Track(rs, q).times, q.now, q.window));
  }

  /**
   The bound holds of every run: no clock-forward run has more allowed requests in an interval of the window's
   length.
   */
  ghost predicate AlwaysBounded(q: Request) {
    forall rs: seq<Request>, from: int :: ClockForward(rs) ==> |AllowedIn(rs, q, from)| <= 2 * q.max - 1
  }

  /**
   The bound holds of every run exactly for the windows of whole milliseconds, and of a single nanosecond: all
   others share their bucket with a shorter window.
   */
  lemma BoundedExactly(q: Request)
    requires Counted(q)
    ensures AlwaysBounded(q) <==> q.window % NANOS_PER_MILLI == 0 || q.window == 1
  {
    hide AllowedIn, Shared;
    if q.window % NANOS_PER_MILLI == 0 || q.window == 1 {
      forall rs: seq<Request>, from: int | ClockForward(rs) ensures |AllowedIn(rs, q, from)| <= 2 * q.max - 1 {
        if q.window == 1 {
          SlidingBound(rs, q, from);
        } else {
          WholeMillisBound(rs, q, from);
        }
      }
    } else {
      SharedExceedsBound(q);
    }
  }

  // ---------- refusals ----------

  /** Without a positive limit or window everything is allowed, and with a limit nothing without an identity. */
  lemma Uncounted(rs: seq<Request>, n: nat)
    requires n < |rs|
    ensures rs[n].max <= 0 ==> AnswerAt(rs, n)
    ensures rs[n].max > 0 && Trim(rs[n].identity) == "" ==> !AnswerAt(rs, n)
    ensures rs[n].max > 0 && Trim(rs[n].identity) != "" && rs[n].window <= 0 ==> AnswerAt(rs, n)
  {
    hide Trim;
  }

  lemma {:induction false} SameTrack(rs: seq<Request>, q: Request, p: Request)
    requires forall r :: SameTriple(r, q) <==> SameTriple(r, p)
    ensures Track(rs, q) == Track(rs, p)
  {
    hide SameTriple, LaneStep;
    if rs != [] {
      SameTrack(rs[..|rs| - 1], q, p);
    }
  }

  /** The same triple with the shortest window that shares its key. */
  lemma Shortened(rs: seq<Request>, q: Request) returns (p: Request)
    requires Counted(q)
    ensures Counted(p) && NoShorter(rs, p) && p.max == q.max && 0 < p.window <= q.window
    ensures Track(rs, p) == Track(rs, q)
  {
    p := q.(window := Shortest(q.window));
    ShortestFits(q.window);
    hide Shortest;
    assert forall r :: SameTriple(r, q) <==> SameTriple(r, p);
    SameTrack(rs, q, p);
    forall i | 0 <= i < |rs| && SameTriple(rs[i], p) ensures rs[i].window >= p.window {
      ShortestIsLeast(rs[i].window, q.window);
    }
  }

  lemma ShortestFits(window: int)
    requires window > 0
    ensures 0 < Shortest(window) <= window && Shortest(window) / NANOS_PER_MILLI == window / NANOS_PER_MILLI
  {}

  lemma ShortestIsLeast(w: int, window: int)
    requires w > 0 && window > 0 && w / NANOS_PER_MILLI == window / NANOS_PER_MILLI
    ensures w >= Shortest(window)
  {}

  /** A full bucket holds `max` calls that were allowed since it was opened. */
  lemma FullBucket(l: Lane, max: int, window: int, asked: int, now: int)
    requires max > 0 && 0 < window <= asked && Spaced(l, max, window) && AllUpTo(l.times, now)
    requires l.bucket.Some? && l.bucket.value.count >= max && now - l.bucket.value.startAt < asked
    ensures l.bucket.value.startAt <= now
    ensures |InInterval(l.times, l.bucket.value.startAt, asked)| >= max
  {
    var first := l.starts[|l.starts| - 1];
    var from := l.bucket.value.startAt;
    var found := InInterval(l.times, from, asked);
    var block := set i: nat | first <= i < |l.times| && l.times[i] >= from;
    assert forall i :: first <= i < |l.times| ==> l.times[i] >= from;
    IntervalSize(first, |l.times|, block);
    assert block <= found;
    assert found == block + (found - block);
  }

  lemma RefusedBucket(rs: seq<Request>, n: nat)
    requires n < |rs| && Counted(rs[n]) && !AnswerAt(rs, n)
    ensures var b := Track(rs[..n], rs[n]).bucket;
      b.Some? && b.value.count >= rs[n].max && rs[n].now - b.value.startAt < rs[n].window
  {
    TrackBucket(rs[..n], rs[n]);
    hide Track, Key, Table;
  }

  /**
   A call is refused only when `max` calls of its limit, identity and window were allowed less than a window before
   it, in an interval that holds it too.
   */
  lemma RefusedOnlyIfFull(rs: seq<Request>, n: nat) returns (from: int)
    requires n < |rs| && Counted(rs[n]) && !AnswerAt(rs, n) && ClockForward(rs)
    ensures rs[n].now - rs[n].window < from <= rs[n].now
    ensures |AllowedIn(rs[..n], rs[n], from)| >= rs[n].max
  {
    var q, before := rs[n], rs[..n];
    RefusedBucket(rs, n);
    var p := Shortened(before, q);
    TrackSpaced(before, p, q.now);
    hide Track, Spaced, SameTriple, NoShorter;
    from := Track(before, q).bucket.value.startAt;
    FullBucket(Track(before, q), q.max, p.window, q.window, q.now);
    TrackCounts(before, q, from);
  }
}
