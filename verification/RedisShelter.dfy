/**
 When eviction can find every live key: the index of the shared store covers the live keys, up to those that a
 caller is about to add, until one of three steps lets a key escape, and from then on it does not.
 */
module RedisShelter {
  import opened Text
  import opened MemoryReplay
  import opened RedisProtocol
  import RedisBound

  predicate Adds(s: State, c: nat, jti: string) {
    c in s.callers && s.callers[c].stage.AtZadd? && s.callers[c].jti == jti
  }

  /** Some caller has set the key and is about to index it. */
  ghost predicate Adding(s: State, jti: string) {
    exists c :: Adds(s, c, jti)
  }

  ghost predicate AddingBesides(s: State, c: nat, jti: string) {
    exists d :: d != c && Adds(s, d, jti)
  }

  ghost predicate Sheltered(s: State) {
    forall jti :: Live(s, jti) ==> jti in s.index || Adding(s, jti)
  }

  /**
   The steps that let a key escape: a SET that is carried out with its reply lost, a ZADD that is not carried
   out, and a ZREM that removes a member whose key somebody has set again.
   */
  ghost predicate Escapes(s: State, l: Label) {
    match l
    case Set(c, fate) => fate.Lost? && c in s.callers && SetEscapes(s, s.callers[c].jti)
    case Zadd(c, fate, _) => fate.NotRun? && c in s.callers && ZaddEscapes(s, c, s.callers[c].jti)
    case Zrem(c, fate) => !fate.NotRun? && c in s.callers && ZremEscapes(s, s.callers[c].stage)
    case _ => false
  }

  ghost predicate SetEscapes(s: State, jti: string) {
    !Live(s, jti) && jti !in s.index && !Adding(s, jti)
  }

  ghost predicate ZaddEscapes(s: State, c: nat, jti: string) {
    Live(s, jti) && jti !in s.index && !AddingBesides(s, c, jti)
  }

  ghost predicate ZremEscapes(s: State, stage: Stage) {
    stage.AtZrem? && stage.victims != [] && Live(s, stage.victims[0]) && !Adding(s, stage.victims[0])
  }

  // ---------- one step ----------

  /** A step of caller `c` that neither starts nor ends its adding. */
  ghost predicate SameAdders(s: State, s': State) {
    forall c, jti :: Adds(s', c, jti) <==> Adds(s, c, jti)
  }

  /** Keys only die, members stay, and nobody starts or stops adding. */
  lemma QuietStep(s: State, s': State)
    requires Sheltered(s) && SameAdders(s, s') && s'.index == s.index
    requires forall jti :: Live(s', jti) ==> Live(s, jti)
    ensures Sheltered(s')
  {
    hide Live, Adds;
    forall jti | Live(s', jti) ensures jti in s'.index || Adding(s', jti) {
      if jti !in s.index {
        var c :| Adds(s, c, jti);
        assert Adds(s', c, jti);
      }
    }
  }

  /** All the steps that are not a SET, a ZADD or a ZREM. */
  lemma QuietDoes(cfg: Config, s: State, l: Label, s': State)
    requires Next(cfg, s, l, s') && !l.Set? && !l.Zadd? && !l.Zrem?
    ensures SameAdders(s, s') && s'.index == s.index
    ensures forall jti :: Live(s', jti) ==> Live(s, jti)
  {
    QuietEffect(cfg, s, l, s');
    hide Next;
  }

  lemma QuietEffect(cfg: Config, s: State, l: Label, s': State)
    requires Next(cfg, s, l, s') && !l.Set? && !l.Zadd? && !l.Zrem?
    ensures s'.index == s.index && s.clock <= s'.clock
    ensures forall jti :: jti in s'.expiry ==> jti in s.expiry && s'.expiry[jti] == s.expiry[jti]
    ensures if l.Tick? then s'.callers == s.callers
            else l.c in s'.callers && s'.callers == s.callers[l.c := s'.callers[l.c]] && !s'.callers[l.c].stage.AtZadd?
    ensures !l.Tick? && l.c in s.callers ==> !s.callers[l.c].stage.AtZadd?
  {
    hide Marks, Lowest, Normal, NextVictim, FallEvents;
    if l.Zrange? {
      NextVictimKind(l.victims);
    }
  }

  lemma NextVictimKind(victims: seq<string>)
    ensures NextVictim(victims).Done? || NextVictim(victims).AtDel?
  {}

  lemma SetDoes(cfg: Config, s: State, l: Label, s': State)
    requires Next(cfg, s, l, s') && l.Set?
    ensures l.c in s.callers && s.callers[l.c].stage.AtSet? && s'.index == s.index && s'.clock == s.clock
    ensures var jti := s.callers[l.c].jti;
      var isNew := !l.fate.NotRun? && !Live(s, jti);
      && (forall j :: Live(s', j) <==> Live(s, j) || (isNew && j == jti))
      && (forall c, j :: Adds(s', c, j) <==> Adds(s, c, j) || (isNew && l.fate.Ok? && c == l.c && j == jti))
  {}

  lemma SetStep(cfg: Config, s: State, l: Label, s': State)
    requires Sheltered(s) && Next(cfg, s, l, s') && l.Set?
    ensures Sheltered(s') <==> !Escapes(s, l)
  {
    SetDoes(cfg, s, l, s');
    hide Next, Live, Adds;
    var jti := s.callers[l.c].jti;
    forall j ensures Adding(s', j) <==> Adding(s, j) || (!l.fate.NotRun? && !Live(s, jti) && l.fate.Ok? && j == jti) {
      if Adding(s, j) {
        var c :| Adds(s, c, j);
        assert Adds(s', c, j);
      }
      assert !l.fate.NotRun? && !Live(s, jti) && l.fate.Ok? ==> Adds(s', l.c, jti);
    }
    hide Adding;
    assert Escapes(s, l) ==> Live(s', jti) && jti !in s'.index && !Adding(s', jti);
  }

  lemma ZaddDoes(cfg: Config, s: State, l: Label, s': State)
    requires Next(cfg, s, l, s') && l.Zadd?
    ensures l.c in s.callers && Adds(s, l.c, s.callers[l.c].jti)
    ensures s'.index == if l.fate.NotRun? then s.index else s.index[s.callers[l.c].jti := l.score]
    ensures forall j :: Live(s', j) <==> Live(s, j)
    ensures forall c, j :: Adds(s', c, j) <==> c != l.c && Adds(s, c, j)
  {}

  lemma ZaddStep(cfg: Config, s: State, l: Label, s': State)
    requires Sheltered(s) && Next(cfg, s, l, s') && l.Zadd?
    ensures Sheltered(s') <==> !Escapes(s, l)
  {
    ZaddDoes(cfg, s, l, s');
    hide Next, Live;
    var jti := s.callers[l.c].jti;
    forall j ensures Adding(s', j) <==> AddingBesides(s, l.c, j) {
      if Adding(s', j) {
        var c :| Adds(s', c, j);
        assert c != l.c && Adds(s, c, j);
      }
      if AddingBesides(s, l.c, j) {
        var d :| d != l.c && Adds(s, d, j);
        assert Adds(s', d, j);
      }
    }
    forall j | j != jti ensures AddingBesides(s, l.c, j) <==> Adding(s, j) {
      if Adding(s, j) {
        var c :| Adds(s, c, j);
        assert c != l.c;
      }
    }
    hide Adding, AddingBesides, Adds;
    assert Escapes(s, l) ==> Live(s', jti) && jti !in s'.index && !Adding(s', jti);
  }

  lemma ZremDoes(cfg: Config, s: State, l: Label, s': State)
    requires Next(cfg, s, l, s') && l.Zrem?
    ensures l.c in s.callers && s.callers[l.c].stage.AtZrem? && s.callers[l.c].stage.victims != []
    ensures s'.index == if l.fate.NotRun? then s.index else s.index - {s.callers[l.c].stage.victims[0]}
    ensures forall j :: Live(s', j) <==> Live(s, j)
    ensures SameAdders(s, s')
  {
    NextVictimKind(s.callers[l.c].stage.victims[1..]);
    hide NextVictim;
  }

  lemma ZremStep(cfg: Config, s: State, l: Label, s': State)
    requires Sheltered(s) && Next(cfg, s, l, s') && l.Zrem?
    ensures Sheltered(s') <==> !Escapes(s, l)
  {
    ZremDoes(cfg, s, l, s');
    hide Next, Live, Adds;
    forall j ensures Adding(s', j) <==> Adding(s, j) {
      if Adding(s, j) {
        var c :| Adds(s, c, j);
        assert Adds(s', c, j);
      }
    }
    hide Adding;
    var victim := s.callers[l.c].stage.victims[0];
    assert Escapes(s, l) ==> Live(s', victim) && victim !in s'.index && !Adding(s', victim);
  }

  /** From a state in which eviction can find every live key, a step leads out exactly when it lets a key escape. */
  lemma ShelterStep(cfg: Config, s: State, l: Label, s': State)
    requires Sheltered(s) && Next(cfg, s, l, s')
    ensures Sheltered(s') <==> !Escapes(s, l)
  {
    if l.Set? {
      SetStep(cfg, s, l, s');
    } else if l.Zadd? {
      ZaddStep(cfg, s, l, s');
    } else if l.Zrem? {
      ZremStep(cfg, s, l, s');
    } else {
      QuietDoes(cfg, s, l, s');
      hide Next, SameAdders, Live;
      QuietStep(s, s');
    }
  }

  // ---------- whole runs ----------

  /**
   A run keeps every live key in the index, or in the hands of a caller, as long as no step lets one escape, and
   no longer.
   */
  lemma {:induction false} ShelterRun(cfg: Config, ss: seq<State>, ls: seq<Label>, n: nat)
    requires IsInterleaving(cfg, ss, ls) && n <= |ls|
    ensures (forall k :: 0 <= k <= n ==> Sheltered(ss[k])) <==> (forall k :: 0 <= k < n ==> !Escapes(ss[k], ls[k]))
  {
    hide Next, Sheltered, Escapes;
    if n == 0 {
      ShelterInit(ss[0]);
    } else {
      ShelterRun(cfg, ss, ls, n - 1);
      if Sheltered(ss[n - 1]) {
        ShelterStep(cfg, ss[n - 1], ls[n - 1], ss[n]);
      }
    }
  }

  lemma ShelterInit(s: State)
    requires Init(s)
    ensures Sheltered(s)
  {}

  /** With nobody about to add, the live keys are all in the index, so there are no more of them than members. */
  lemma ShelteredKeys(s: State, live: set<string>)
    requires Sheltered(s) && (forall c :: c in s.callers ==> !s.callers[c].stage.AtZadd?)
    requires forall jti :: jti in live ==> Live(s, jti)
    ensures live <= s.index.Keys && |live| <= |s.index|
  {
    forall jti | jti in live ensures jti in s.index {
      assert Live(s, jti);
    }
    SubsetSize(live, s.index.Keys);
  }

  /** Then the bound on the index is a bound on the live keys. */
  lemma LiveKeysBound(cfg: Config, ss: seq<State>, ls: seq<Label>, n: nat, live: set<string>)
    requires IsInterleaving(cfg, ss, ls) && n <= |ls|
    requires forall k :: 0 <= k < n ==> !Escapes(ss[k], ls[k])
    requires forall c :: c in ss[n].callers ==> !ss[n].callers[c].stage.AtZadd?
    requires forall jti :: jti in live ==> Live(ss[n], jti)
    ensures |live| <= cfg.max + |RedisBound.Flying(ss[n])| + RedisBound.Failures(ls[..n])
  {
    hide Next, Sheltered, Escapes;
    ShelterRun(cfg, ss, ls, n);
    ShelteredKeys(ss[n], live);
    RedisBound.IndexBoundWithFailures(cfg, ss, ls, n);
  }
}
