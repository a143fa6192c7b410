/**
 What a condition says, in terms of the fact, the operator and the value that are written in it: the meaning of
 every operator on the values that the fact resolves to, the laws between operators, and the meaning of the facts.
 */
module ConditionLaws {
  import opened Text
  import opened StringLists
  import opened Conditions

  // ---------- the expected value ----------

  /** What is printed for a value. */
  function Shown(v: Value): string {
    match v
    case Null => "<nil>"
    case Str(text) => text
    case Num(shown, _) => shown
    case List(_, shown) => shown
    case Obj(_, shown) => shown
    case Other(shown) => shown
  }

  /** The texts that a value offers to a membership test: its items, its keys, or itself. */
  function Offered(v: Value): seq<string> {
    match v
    case Null => []
    case List(items, _) => seq(|items|, i requires 0 <= i < |items| => Shown(items[i]))
    case Obj(entries, _) => seq(|entries|, i requires 0 <= i < |entries| => entries[i].0)
    case _ => [Shown(v)]
  }

  /** The numbers of a list, in order, items that are no numbers being passed over. */
  ghost predicate AreNumbers(items: seq<Value>, env: Env, ns: seq<real>) {
    if items == [] then ns == []
    else
      match items[0]
      case Num(_, n) => ns != [] && ns[0] == n && AreNumbers(items[1..], env, ns[1..])
      case Str(text) =>
        if env.parseFloat(Trim(text)).Some? then
          ns != [] && ns[0] == env.parseFloat(Trim(text)).value && AreNumbers(items[1..], env, ns[1..])
        else AreNumbers(items[1..], env, ns)
      case _ => AreNumbers(items[1..], env, ns)
  }

  /** The bounds that a value gives to a numeric operator. */
  ghost predicate AreBounds(v: Value, env: Env, bounds: seq<real>) {
    AreNumbers(if v.List? then v.items else [v], env, bounds)
  }

  lemma ShownTrimmed(v: Value)
    ensures NormalizeToString(v) == Trim(Shown(v))
  {}

  lemma {:induction false} ShownItems(items: seq<Value>, y: string)
    ensures Configured(seq(|items|, i requires 0 <= i < |items| => NormalizeToString(items[i])), y) <==>
      Configured(seq(|items|, i requires 0 <= i < |items| => Shown(items[i])), y)
  {
    var a := seq(|items|, i requires 0 <= i < |items| => NormalizeToString(items[i]));
    var b := seq(|items|, i requires 0 <= i < |items| => Shown(items[i]));
    forall i | 0 <= i < |items| ensures Trim(a[i]) == Trim(b[i]) {
      ShownTrimmed(items[i]);
      TrimIsTight(Shown(items[i]));
    }
    if Configured(a, y) {
      var i :| 0 <= i < |a| && Trim(a[i]) == y;
      assert Trim(b[i]) == y;
    }
    if Configured(b, y) {
      var i :| 0 <= i < |b| && Trim(b[i]) == y;
      assert Trim(a[i]) == y;
    }
  }

  lemma OneShown(v: Value, y: string)
    ensures Configured([NormalizeToString(v)], y) <==> Configured([Shown(v)], y)
  {
    ShownTrimmed(v);
    TrimIsTight(Shown(v));
    hide NormalizeToString, Shown, Trim;
    if Configured([Shown(v)], y) {
      assert Trim([NormalizeToString(v)][0]) == y;
    }
    if Configured([NormalizeToString(v)], y) {
      assert Trim([Shown(v)][0]) == y;
    }
  }

  lemma NormalizedMembers(values: seq<string>, y: string)
    ensures y in NormalizeList(values) <==> Configured(values, y)
  {
    SortMembers(Cleaned(values), y);
    CleanedMembers(values, y);
  }

  /** A value offers exactly its texts, trimmed and without blanks. */
  lemma OfferedMembers(v: Value, y: string)
    ensures y in AnyToStrings(v) <==> Configured(Offered(v), y)
  {
    hide NormalizeList, Configured, NormalizeToString, Shown;
    match v
    case Null => NothingConfigured(y);
    case List(items, _) =>
      NormalizedMembers(seq(|items|, i requires 0 <= i < |items| => NormalizeToString(items[i])), y);
      ShownItems(items, y);
    case Obj(entries, _) => NormalizedMembers(Offered(v), y);
    case _ =>
      NormalizedMembers([NormalizeToString(v)], y);
      OneShown(v, y);
  }

  lemma NothingConfigured(y: string)
    ensures !Configured([], y)
  {}

  lemma {:induction false} NumbersAre(items: seq<Value>, env: Env, ns: seq<real>)
    ensures AreNumbers(items, env, ns) <==> Numbers(items, env) == ns
  {
    if items != [] {
      var rest := Numbers(items[1..], env);
      NumbersAre(items[1..], env, ns);
      if ns != [] {
        NumbersAre(items[1..], env, ns[1..]);
        assert ns == [ns[0]] + ns[1..];
        assert ([ns[0]] + rest)[1..] == rest;
      }
      hide Trim;
    }
  }

  lemma BoundsAre(v: Value, env: Env, bounds: seq<real>)
    requires AreBounds(v, env, bounds)
    ensures AnyToNumbers(v, env) == bounds
  {
    NumbersAre(if v.List? then v.items else [v], env, bounds);
  }

  // ---------- a leaf ----------

  /** The condition compares a fact that resolves to these values by this operator. */
  ghost predicate Tests(c: Condition, facts: string -> Resolved, op: string, actual: seq<string>) {
    && Lower(Trim(c.operator)) == op && c.not.None? && Trim(c.fact) != "" && facts(c.fact) == Values(actual)
  }

  lemma LeafCompares(c: Condition, facts: string -> Resolved, env: Env, op: string, actual: seq<string>)
    requires Tests(c, facts, op, actual) && op !in {"", "and", "or", "not"}
    ensures Evaluate(c, facts, env).Holds? <==> Compares(actual, op, c.value, env)
  {
    hide Trim, Lower, Compares;
  }

  /** A leaf whose fact is blank or unresolved, or whose operator is not known, is never satisfied. */
  lemma UnknownFails(c: Condition, facts: string -> Resolved, env: Env)
    requires c.not.None? && Lower(Trim(c.operator)) !in {"and", "or", "not"}
    requires Lower(Trim(c.operator)) == "" ==> c.all.Unset? && c.any.Unset?
    requires
      || Trim(c.fact) == "" || facts(c.fact).Unresolved?
      || Lower(Trim(c.operator)) !in
           {"eq", "neq", "in", "contains", "matches", "gt", "gte", "lt", "lte", "between", "exists"}
    ensures Evaluate(c, facts, env).Fails?
  {
    hide Trim, Lower, AnyToNumbers, NormalizeToString;
  }

  // ---------- the operators ----------

  lemma ExistsMeans(c: Condition, facts: string -> Resolved, env: Env, actual: seq<string>)
    requires Tests(c, facts, "exists", actual)
    ensures Evaluate(c, facts, env).Holds? <==> actual != []
  {
    hide Trim, Lower;
    LeafCompares(c, facts, env, "exists", actual);
  }

  lemma EqMeans(c: Condition, facts: string -> Resolved, env: Env, actual: seq<string>)
    requires Tests(c, facts, "eq", actual)
    ensures Evaluate(c, facts, env).Holds? <==>
      exists i :: 0 <= i < |actual| && Lower(actual[i]) == Lower(Trim(Shown(c.value)))
  {
    LeafCompares(c, facts, env, "eq", actual);
    ShownTrimmed(c.value);
    hide Evaluate, Trim, Lower, Shown, NormalizeToString;
    assert forall i :: 0 <= i < |actual| ==>
      (Meets(actual[i], "eq", c.value, env) <==> Lower(actual[i]) == Lower(Trim(Shown(c.value))));
  }

  lemma NeqMeans(c: Condition, facts: string -> Resolved, env: Env, actual: seq<string>)
    requires Tests(c, facts, "neq", actual)
    ensures Evaluate(c, facts, env).Holds? <==>
      actual != [] && forall i :: 0 <= i < |actual| ==> Lower(actual[i]) != Lower(Trim(Shown(c.value)))
  {
    LeafCompares(c, facts, env, "neq", actual);
    ShownTrimmed(c.value);
    hide Evaluate, Trim, Lower, Shown, NormalizeToString;
    assert forall i :: 0 <= i < |actual| ==>
      (EqualFold(actual[i], NormalizeToString(c.value)) <==> Lower(actual[i]) == Lower(Trim(Shown(c.value))));
  }

  lemma InMeans(c: Condition, facts: string -> Resolved, env: Env, actual: seq<string>)
    requires Tests(c, facts, "in", actual)
    ensures Evaluate(c, facts, env).Holds? <==>
      exists i, y :: 0 <= i < |actual| && Configured(Offered(c.value), y) && Lower(actual[i]) == Lower(y)
  {
    LeafCompares(c, facts, env, "in", actual);
    hide Evaluate, Trim, Lower, AnyToStrings, Configured, Offered;
    var list := AnyToStrings(c.value);
    forall y ensures y in list <==> Configured(Offered(c.value), y) {
      OfferedMembers(c.value, y);
    }
    forall i | 0 <= i < |actual|
      ensures Meets(actual[i], "in", c.value, env) <==>
        exists y :: Configured(Offered(c.value), y) && Lower(actual[i]) == Lower(y)
    {
      InOne(actual[i], list);
    }
  }

  lemma InOne(a: string, list: seq<string>)
    ensures AnyEqual(list, a) <==> exists y :: y in list && Lower(a) == Lower(y)
  {
    hide Lower;
    if AnyEqual(list, a) {
      var k :| 0 <= k < |list| && EqualFold(list[k], a);
      assert list[k] in list && Lower(a) == Lower(list[k]);
    }
    if y :| y in list && Lower(a) == Lower(y) {
      var k :| 0 <= k < |list| && list[k] == y;
      assert EqualFold(list[k], a);
    }
  }

  lemma ContainsMeans(c: Condition, facts: string -> Resolved, env: Env, actual: seq<string>)
    requires Tests(c, facts, "contains", actual)
    ensures Evaluate(c, facts, env).Holds? <==>
      exists i, before, after ::
        0 <= i < |actual| && Lower(actual[i]) == before + Lower(Trim(Shown(c.value))) + after
  {
    LeafCompares(c, facts, env, "contains", actual);
    ShownTrimmed(c.value);
    hide Evaluate, Trim, Lower, Shown, NormalizeToString;
    var t := Lower(Trim(Shown(c.value)));
    forall i | 0 <= i < |actual|
      ensures Meets(actual[i], "contains", c.value, env) <==>
        exists before, after :: Lower(actual[i]) == before + t + after
    {
      ContainsOne(Lower(actual[i]), t);
    }
  }

  lemma ContainsOne(s: string, t: string)
    ensures Contains(s, t) <==> exists before, after :: s == before + t + after
  {
    if Contains(s, t) {
      var i :| 0 <= i <= |s| && OccursAt(s, t, i);
      assert s == s[..i] + t + s[i + |t|..];
    }
    if before, after :| s == before + t + after {
      assert OccursAt(s, t, |before|);
    }
  }

  lemma MatchesMeans(c: Condition, facts: string -> Resolved, env: Env, actual: seq<string>)
    requires Tests(c, facts, "matches", actual)
    ensures Evaluate(c, facts, env).Holds? <==>
      && env.compiles(Trim(Shown(c.value)))
      && exists i :: 0 <= i < |actual| && env.matches(Trim(Shown(c.value)), actual[i])
  {
    LeafCompares(c, facts, env, "matches", actual);
    ShownTrimmed(c.value);
    hide Evaluate, Trim, Lower, Shown, NormalizeToString;
    assert forall i :: 0 <= i < |actual| ==>
      (Meets(actual[i], "matches", c.value, env) <==> env.matches(Trim(Shown(c.value)), actual[i]));
  }

  /** The number that a value reads as lies where the operator wants it. */
  ghost predicate Reads(env: Env, text: string, n: real) {
    env.parseFloat(Trim(text)) == Some(n)
  }

  lemma OneNumber(a: string, op: string, value: Value, env: Env, bounds: seq<real>)
    requires AreBounds(value, env, bounds) && op in {"gt", "gte", "lt", "lte", "between"}
    ensures Meets(a, op, value, env) <==> MeetsNumber(env.parseFloat(Trim(a)), op, bounds)
    ensures env.parseFloat(Trim(a)).Some? ==> Reads(env, a, env.parseFloat(Trim(a)).value)
  {
    hide Trim, AreBounds, AnyToNumbers;
    BoundsAre(value, env, bounds);
  }

  lemma GtMeans(c: Condition, facts: string -> Resolved, env: Env, actual: seq<string>, bounds: seq<real>)
    requires Tests(c, facts, "gt", actual) && AreBounds(c.value, env, bounds)
    ensures Evaluate(c, facts, env).Holds? <==>
      bounds != [] && exists i, n :: 0 <= i < |actual| && Reads(env, actual[i], n) && n > bounds[0]
  {
    LeafCompares(c, facts, env, "gt", actual);
    hide Evaluate, Trim, Lower, Meets, AreBounds;
    forall i | 0 <= i < |actual|
      ensures Meets(actual[i], "gt", c.value, env) <==>
        bounds != [] && exists n :: Reads(env, actual[i], n) && n > bounds[0]
    {
      OneNumber(actual[i], "gt", c.value, env, bounds);
    }
  }

  lemma GteMeans(c: Condition, facts: string -> Resolved, env: Env, actual: seq<string>, bounds: seq<real>)
    requires Tests(c, facts, "gte", actual) && AreBounds(c.value, env, bounds)
    ensures Evaluate(c, facts, env).Holds? <==>
      bounds != [] && exists i, n :: 0 <= i < |actual| && Reads(env, actual[i], n) && n >= bounds[0]
  {
    LeafCompares(c, facts, env, "gte", actual);
    hide Evaluate, Trim, Lower, Meets, AreBounds;
    forall i | 0 <= i < |actual|
      ensures Meets(actual[i], "gte", c.value, env) <==>
        bounds != [] && exists n :: Reads(env, actual[i], n) && n >= bounds[0]
    {
      OneNumber(actual[i], "gte", c.value, env, bounds);
    }
  }

  lemma LtMeans(c: Condition, facts: string -> Resolved, env: Env, actual: seq<string>, bounds: seq<real>)
    requires Tests(c, facts, "lt", actual) && AreBounds(c.value, env, bounds)
    ensures Evaluate(c, facts, env).Holds? <==>
      bounds != [] && exists i, n :: 0 <= i < |actual| && Reads(env, actual[i], n) && n < bounds[0]
  {
    LeafCompares(c, facts, env, "lt", actual);
    hide Evaluate, Trim, Lower, Meets, AreBounds;
    forall i | 0 <= i < |actual|
      ensures Meets(actual[i], "lt", c.value, env) <==>
        bounds != [] && exists n :: Reads(env, actual[i], n) && n < bounds[0]
    {
      OneNumber(actual[i], "lt", c.value, env, bounds);
    }
  }

  lemma LteMeans(c: Condition, facts: string -> Resolved, env: Env, actual: seq<string>, bounds: seq<real>)
    requires Tests(c, facts, "lte", actual) && AreBounds(c.value, env, bounds)
    ensures Evaluate(c, facts, env).Holds? <==>
      bounds != [] && exists i, n :: 0 <= i < |actual| && Reads(env, actual[i], n) && n <= bounds[0]
  {
    LeafCompares(c, facts, env, "lte", actual);
    hide Evaluate, Trim, Lower, Meets, AreBounds;
    forall i | 0 <= i < |actual|
      ensures Meets(actual[i], "lte", c.value, env) <==>
        bounds != [] && exists n :: Reads(env, actual[i], n) && n <= bounds[0]
    {
      OneNumber(actual[i], "lte", c.value, env, bounds);
    }
  }

  lemma BetweenMeans(c: Condition, facts: string -> Resolved, env: Env, actual: seq<string>, bounds: seq<real>)
    requires Tests(c, facts, "between", actual) && AreBounds(c.value, env, bounds)
    ensures Evaluate(c, facts, env).Holds? <==>
      |bounds| >= 2 && exists i, n :: 0 <= i < |actual| && Reads(env, actual[i], n) && bounds[0] <= n <= bounds[1]
  {
    LeafCompares(c, facts, env, "between", actual);
    hide Evaluate, Trim, Lower, Meets, AreBounds;
    forall i | 0 <= i < |actual|
      ensures Meets(actual[i], "between", c.value, env) <==>
        |bounds| >= 2 && exists n :: Reads(env, actual[i], n) && bounds[0] <= n <= bounds[1]
    {
      OneNumber(actual[i], "between", c.value, env, bounds);
    }
  }

  // ---------- laws between operators ----------

  function Leaf(fact: string, operator: string, value: Value): Condition {
    Condition(Unset, Unset, None, fact, operator, value)
  }

  lemma Plain(op: string)
    requires op in {"eq", "neq", "gt", "gte", "lt", "lte", "between"}
    ensures Lower(Trim(op)) == op
  {
    AlreadyTrimmed(op);
    assert Lower(op) == op;
  }

  /** `neq` is the negation of `eq` for a fact that resolves. */
  lemma EqXorNeq(fact: string, value: Value, facts: string -> Resolved, env: Env)
    requires Trim(fact) != "" && facts(fact).Values? && facts(fact).values != []
    ensures Evaluate(Leaf(fact, "neq", value), facts, env).Holds? <==>
      !Evaluate(Leaf(fact, "eq", value), facts, env).Holds?
  {
    Plain("eq");
    Plain("neq");
    hide Evaluate, Trim, Lower, Shown;
    EqMeans(Leaf(fact, "eq", value), facts, env, facts(fact).values);
    NeqMeans(Leaf(fact, "neq", value), facts, env, facts(fact).values);
  }

  /** For one value that reads as a number, `gt` and `lte` exclude and complete each other, and so do `lt` and `gte`. */
  lemma OrderIsTotal(fact: string, a: string, n: real, shown: string, bound: real, facts: string -> Resolved, env: Env)
    requires Trim(fact) != "" && facts(fact) == Values([a]) && Reads(env, a, n)
    ensures
      var value := Num(shown, bound);
      && (Evaluate(Leaf(fact, "gt", value), facts, env).Holds? <==>
            !Evaluate(Leaf(fact, "lte", value), facts, env).Holds?)
      && (Evaluate(Leaf(fact, "lt", value), facts, env).Holds? <==>
            !Evaluate(Leaf(fact, "gte", value), facts, env).Holds?)
  {
    var value := Num(shown, bound);
    Plain("gt");
    Plain("gte");
    Plain("lt");
    Plain("lte");
    OneBound(shown, bound, env);
    hide Evaluate, Trim, Lower, AreBounds;
    GtMeans(Leaf(fact, "gt", value), facts, env, [a], [bound]);
    GteMeans(Leaf(fact, "gte", value), facts, env, [a], [bound]);
    LtMeans(Leaf(fact, "lt", value), facts, env, [a], [bound]);
    LteMeans(Leaf(fact, "lte", value), facts, env, [a], [bound]);
    assert [a][0] == a;
  }

  lemma OneBound(shown: string, bound: real, env: Env)
    ensures AreBounds(Num(shown, bound), env, [bound])
  {
    assert [Num(shown, bound)][1..] == [] && [bound][1..] == [];
  }

  lemma TwoBounds(lo: Value, hi: Value, a: real, b: real, shown: string, env: Env)
    requires lo.Num? && hi.Num? && lo.number == a && hi.number == b
    ensures AreBounds(List([lo, hi], shown), env, [a, b])
  {
    assert [lo, hi][1..] == [hi] && [a, b][1..] == [b] && [hi][1..] == [] && [b][1..] == [];
  }

  /** For one value, `between` is `gte` of the first bound together with `lte` of the second. */
  lemma BetweenIsBoth(fact: string, a: string, lo: Value, hi: Value, shown: string, facts: string -> Resolved, env: Env)
    requires Trim(fact) != "" && facts(fact) == Values([a]) && lo.Num? && hi.Num?
    ensures Evaluate(Leaf(fact, "between", List([lo, hi], shown)), facts, env).Holds? <==>
      && Evaluate(Leaf(fact, "gte", lo), facts, env).Holds?
      && Evaluate(Leaf(fact, "lte", hi), facts, env).Holds?
  {
    Plain("between");
    Plain("gte");
    Plain("lte");
    OneBound(lo.shown, lo.number, env);
    OneBound(hi.shown, hi.number, env);
    TwoBounds(lo, hi, lo.number, hi.number, shown, env);
    hide Evaluate, Trim, Lower, AreBounds;
    BetweenMeans(Leaf(fact, "between", List([lo, hi], shown)), facts, env, [a], [lo.number, hi.number]);
    GteMeans(Leaf(fact, "gte", lo), facts, env, [a], [lo.number]);
    LteMeans(Leaf(fact, "lte", hi), facts, env, [a], [hi.number]);
    BetweenOne(env, a, lo.number, hi.number);
  }

  lemma BetweenOne(env: Env, a: string, lo: real, hi: real)
    ensures (exists n :: Reads(env, a, n) && lo <= n <= hi) <==>
      (exists n :: Reads(env, a, n) && n >= lo) && (exists n :: Reads(env, a, n) && n <= hi)
  {
    hide Trim;
    if (exists n :: Reads(env, a, n) && n >= lo) && (exists n :: Reads(env, a, n) && n <= hi) {
      var n :| Reads(env, a, n) && n >= lo;
      var m :| Reads(env, a, m) && m <= hi;
      assert n == m;
    }
  }

  /** The operators that combine: every condition of `all`, some condition of `any`, the failure of `not`. */
  lemma CombinedMeans(c: Condition, facts: string -> Resolved, env: Env)
    ensures Lower(Trim(c.operator)) == "and" || (Lower(Trim(c.operator)) == "" && c.all.Given?) ==>
      (Evaluate(c, facts, env).Holds? <==>
        c.all.Given? ==> forall i :: 0 <= i < |c.all.list| ==> Evaluate(c.all.list[i], facts, env).Holds?)
    ensures Lower(Trim(c.operator)) == "or" || (Lower(Trim(c.operator)) == "" && c.all.Unset? && c.any.Given?) ==>
      (Evaluate(c, facts, env).Holds? <==>
        c.any.Given? && c.any.list != [] ==>
          exists i :: 0 <= i < |c.any.list| && Evaluate(c.any.list[i], facts, env).Holds?)
    ensures Lower(Trim(c.operator)) == "not" ==>
      (Evaluate(c, facts, env).Holds? <==> c.not.Some? && !Evaluate(c.not.value, facts, env).Holds?)
    ensures Lower(Trim(c.operator)) !in {"", "and", "or", "not"} && c.not.Some? ==>
      (Evaluate(c, facts, env).Holds? <==> !Evaluate(c.not.value, facts, env).Holds?)
  {
    hide Trim, Lower;
    if c.all.Given? {
      AllMeansEvery(c.all.list, facts, env);
    }
    if c.any.Given? {
      AnyMeansSome(c.any.list, facts, env);
    }
  }

  // ---------- facts ----------

  /** The fact resolves to exactly these texts, trimmed and without blanks, or to nothing if there are none. */
  ghost predicate Offers(r: Resolved, texts: seq<string>) {
    if exists y :: Configured(texts, y) then r.Values? && forall y :: y in r.values <==> Configured(texts, y)
    else r.Unresolved?
  }

  lemma NormalizedOffers(texts: seq<string>)
    ensures Offers(NonEmpty(NormalizeList(texts)), texts)
  {
    hide NormalizeList, Configured;
    var list := NormalizeList(texts);
    forall y ensures y in list <==> Configured(texts, y) {
      NormalizedMembers(texts, y);
    }
    if list != [] {
      assert Configured(texts, list[0]);
    }
  }

  lemma ValueOffers(v: Value)
    ensures Offers(NonEmpty(AnyToStrings(v)), Offered(v))
  {
    hide AnyToStrings, Offered, Configured;
    var list := AnyToStrings(v);
    forall y ensures y in list <==> Configured(Offered(v), y) {
      OfferedMembers(v, y);
    }
    if list != [] {
      assert Configured(Offered(v), list[0]);
    }
  }

  /** The fact is written as a source and a key around its first dot. */
  ghost predicate Names(fact: string, source: string, key: string) {
    exists a, b :: Trim(fact) == a + "." + b && '.' !in a && Lower(Trim(a)) == source && Lower(Trim(b)) == key
  }

  lemma NamedFact(
    fact: string, source: string, key: string, claims: Option<TokenClaims>, identity: Option<ClientIdentity>,
    req: PolicyRequest, env: Env)
    requires Names(fact, source, key)
    ensures ResolveFact(fact, claims, identity, req, env) ==
      if source == "token" && claims.Some? then ResolveTokenFact(key, claims.value)
      else if source == "cert" && identity.Some? then ResolveCertFact(key, identity.value)
      else if source == "request" then ResolveRequestFact(key, req, env)
      else Unresolved
  {
    hide Trim, Lower, ResolveTokenFact, ResolveCertFact, ResolveRequestFact;
    var a, b :| Trim(fact) == a + "." + b && '.' !in a && Lower(Trim(a)) == source && Lower(Trim(b)) == key;
    var f := Trim(fact);
    assert f == a + ['.'] + b;
    IndexOfIs(a, '.', b);
    assert f[..|a|] == a && f[|a| + 1..] == b;
    TrimIsTight(b);
  }

  lemma TokenKeyMeans(key: string, claims: TokenClaims)
    ensures
      var r := ResolveTokenFact(key, claims);
      && (key in {"sub", "subject"} ==> Offers(r, [claims.subject]))
      && (key in {"iss", "issuer"} ==> Offers(r, [claims.issuer]))
      && (key in {"aud", "audience"} ==> Offers(r, claims.audience))
      && (key == "jti" ==> Offers(r, [claims.jwtId]))
      && (key in {"scope", "scopes"} ==> Offers(r, claims.scopes))
  {
    hide NormalizeList, Offers, ExtractClaimValues, Split, NonEmpty;
    NormalizedOffers([claims.subject]);
    NormalizedOffers([claims.issuer]);
    NormalizedOffers(claims.audience);
    NormalizedOffers([claims.jwtId]);
    NormalizedOffers(claims.scopes);
  }

  /** What the named facts about the token resolve to. */
  lemma TokenFactMeans(
    fact: string, key: string, claims: TokenClaims, identity: Option<ClientIdentity>, req: PolicyRequest, env: Env)
    requires Names(fact, "token", key)
    ensures
      var r := ResolveFact(fact, Some(claims), identity, req, env);
      && (key in {"sub", "subject"} ==> Offers(r, [claims.subject]))
      && (key in {"iss", "issuer"} ==> Offers(r, [claims.issuer]))
      && (key in {"aud", "audience"} ==> Offers(r, claims.audience))
      && (key == "jti" ==> Offers(r, [claims.jwtId]))
      && (key in {"scope", "scopes"} ==> Offers(r, claims.scopes))
  {
    hide Names, ResolveFact, ResolveTokenFact, ResolveCertFact, ResolveRequestFact, Offers;
    NamedFact(fact, "token", key, Some(claims), identity, req, env);
    TokenKeyMeans(key, claims);
  }

  /** ... those about the certificate, */
  lemma CertFactMeans(
    fact: string, key: string, claims: Option<TokenClaims>, identity: ClientIdentity, req: PolicyRequest, env: Env)
    requires Names(fact, "cert", key)
    ensures
      var r := ResolveFact(fact, claims, Some(identity), req, env);
      && (key in {"sub", "subject"} ==> Offers(r, [identity.subject]))
      && (key == "thumbprint" ==> Offers(r, [identity.thumbprint]))
      && (key in {"serial", "serial_number"} ==> Offers(r, [identity.serialNumber]))
      && (key == "san" ==> Offers(r, identity.san))
      && (key !in {"sub", "subject", "thumbprint", "serial", "serial_number", "san"} ==> r == Unresolved)
  {
    hide Names, ResolveFact, ResolveTokenFact, ResolveRequestFact, NormalizeList, Offers, NonEmpty;
    NamedFact(fact, "cert", key, claims, Some(identity), req, env);
    NormalizedOffers([identity.subject]);
    NormalizedOffers([identity.thumbprint]);
    NormalizedOffers([identity.serialNumber]);
    NormalizedOffers(identity.san);
  }

  /** ... and those about the request; nothing else resolves, and nothing resolves that is not there. */
  lemma RequestFactMeans(
    fact: string, source: string, key: string, claims: Option<TokenClaims>, identity: Option<ClientIdentity>,
    req: PolicyRequest, env: Env)
    requires Names(fact, source, key)
    ensures
      var r := ResolveFact(fact, claims, identity, req, env);
      && (source == "request" && key == "method" ==> r == Values([Upper(Trim(req.method_))]))
      && (source == "request" && key == "path" ==> r == Values([NormalizePolicyPath(req.path)]))
      && (source == "request" && key == "time.hour" ==> r == Values([env.hour]))
      && (source == "request" && key == "time.minute" ==> r == Values([env.minute]))
      && (source == "request" && key in {"time.day_of_week", "time.dayofweek", "time.dow"} ==>
            r == Values([env.weekday]))
      && (source == "token" && claims.None? ==> r == Unresolved)
      && (source == "cert" && identity.None? ==> r == Unresolved)
      && (source !in {"token", "cert", "request"} ==> r == Unresolved)
  {
    NamedFact(fact, source, key, claims, identity, req, env);
    hide Names, ResolveFact, ResolveTokenFact, ResolveCertFact, Trim, Upper, NormalizePolicyPath;
  }

  lemma NoDotNoFact(
    fact: string, claims: Option<TokenClaims>, identity: Option<ClientIdentity>, req: PolicyRequest, env: Env)
    requires '.' !in Trim(fact)
    ensures ResolveFact(fact, claims, identity, req, env) == Unresolved
  {
    IndexOfNone(Trim(fact), '.');
  }

  // ---------- claims by path ----------

  ghost predicate FirstWith(entries: seq<(string, Value)>, i: int, key: string) {
    0 <= i < |entries| && entries[i].0 == key && forall k :: 0 <= k < i ==> entries[k].0 != key
  }

  /** The keys lead to this value, each one into an object. */
  ghost predicate LeadsTo(entries: seq<(string, Value)>, path: seq<string>, v: Value)
    decreases |path|
  {
    && path != []
    && exists i :: FirstWith(entries, i, Trim(path[0])) &&
         if |path| == 1 then entries[i].1 == v else entries[i].1.Obj? && LeadsTo(entries[i].1.entries, path[1..], v)
  }

  lemma {:induction false} EntryIsFirst(entries: seq<(string, Value)>, key: string)
    ensures EntryOf(entries, key).None? ==> forall i :: 0 <= i < |entries| ==> entries[i].0 != key
    ensures EntryOf(entries, key).Some? ==>
      exists i :: FirstWith(entries, i, key) && entries[i].1 == EntryOf(entries, key).value
  {
    if entries != [] && entries[0].0 != key {
      EntryIsFirst(entries[1..], key);
      if EntryOf(entries[1..], key).Some? {
        var i :| FirstWith(entries[1..], i, key) && entries[1..][i].1 == EntryOf(entries[1..], key).value;
        assert forall k :: 0 < k < i + 1 ==> entries[k] == entries[1..][k - 1];
        assert FirstWith(entries, i + 1, key) && entries[i + 1].1 == EntryOf(entries, key).value;
      } else {
        assert forall k :: 0 < k < |entries| ==> entries[k] == entries[1..][k - 1];
      }
    } else if entries != [] {
      assert FirstWith(entries, 0, key);
    }
  }

  lemma FirstIsEntry(entries: seq<(string, Value)>, i: int, key: string)
    requires FirstWith(entries, i, key)
    ensures EntryOf(entries, key) == Some(entries[i].1)
  {
    EntryIsFirst(entries, key);
  }

  /** A claim offers the texts of the value that its path leads to, and nothing when it leads nowhere. */
  lemma {:induction false} PathMeans(raw: seq<(string, Value)>, path: seq<string>)
    ensures forall v :: LeadsTo(raw, path, v) ==> ExtractClaimValues(raw, path) == AnyToStrings(v)
    ensures (forall v :: !LeadsTo(raw, path, v)) ==> ExtractClaimValues(raw, path) == []
    decreases |path|
  {
    hide Trim, AnyToStrings;
    if raw != [] && path != [] {
      var key := Trim(path[0]);
      EntryIsFirst(raw, key);
      var e := EntryOf(raw, key);
      forall i | FirstWith(raw, i, key) ensures e == Some(raw[i].1) {
        FirstIsEntry(raw, i, key);
      }
      if e.Some? {
        var i :| FirstWith(raw, i, key) && raw[i].1 == e.value;
        if |path| == 1 {
          assert LeadsTo(raw, path, e.value);
        } else if e.value.Obj? {
          PathMeans(e.value.entries, path[1..]);
          forall v ensures LeadsTo(raw, path, v) <==> LeadsTo(e.value.entries, path[1..], v) {}
        }
      }
    }
  }

  lemma {:induction false} SplitIs(parts: seq<string>, sep: char)
    requires parts != [] && forall k :: 0 <= k < |parts| ==> sep !in parts[k]
    ensures Split(Join(parts, [sep]), sep) == parts
  {
    hide Split;
    if |parts| == 1 {
      SplitLast(parts[0], sep);
    } else {
      SplitIs(parts[1..], sep);
      SplitCut(parts[0], Join(parts[1..], [sep]), sep);
      assert parts == [parts[0]] + parts[1..];
    }
  }

  lemma SplitLast(s: string, sep: char)
    requires sep !in s
    ensures Split(s, sep) == [s]
  {
    IndexOfNone(s, sep);
  }

  lemma SplitCut(a: string, rest: string, sep: char)
    requires sep !in a
    ensures Split(a + [sep] + rest, sep) == [a] + Split(rest, sep)
  {
    var s := a + [sep] + rest;
    IndexOfIs(a, sep, rest);
    assert s[..|a|] == a && s[|a| + 1..] == rest;
  }

  const TOKEN_KEYS := {"sub", "subject", "iss", "issuer", "aud", "audience", "jti", "scope", "scopes"}

  /** Any other fact about the token is a path of keys through its claims. */
  lemma ClaimFactMeans(
    fact: string, path: seq<string>, claims: TokenClaims, identity: Option<ClientIdentity>,
    req: PolicyRequest, env: Env)
    requires path != [] && forall k :: 0 <= k < |path| ==> '.' !in path[k]
    requires Names(fact, "token", Join(path, ".")) && Join(path, ".") !in TOKEN_KEYS
    ensures
      var r := ResolveFact(fact, Some(claims), identity, req, env);
      && (forall v :: LeadsTo(claims.raw, path, v) ==> Offers(r, Offered(v)))
      && ((forall v :: !LeadsTo(claims.raw, path, v)) ==> r == Unresolved)
  {
    hide Names, ResolveFact, ResolveTokenFact, ResolveCertFact, ResolveRequestFact, Offers, Join, LeadsTo, Offered;
    NamedFact(fact, "token", Join(path, "."), Some(claims), identity, req, env);
    ClaimKeyMeans(path, claims);
  }

  lemma OtherKey(key: string, claims: TokenClaims)
    requires key !in TOKEN_KEYS
    ensures ResolveTokenFact(key, claims) == NonEmpty(ExtractClaimValues(claims.raw, Split(key, '.')))
  {
    hide NormalizeList, ExtractClaimValues, Split, NonEmpty;
  }

  lemma ClaimKeyMeans(path: seq<string>, claims: TokenClaims)
    requires path != [] && forall k :: 0 <= k < |path| ==> '.' !in path[k]
    requires Join(path, ".") !in TOKEN_KEYS
    ensures
      var r := ResolveTokenFact(Join(path, "."), claims);
      && (forall v :: LeadsTo(claims.raw, path, v) ==> Offers(r, Offered(v)))
      && ((forall v :: !LeadsTo(claims.raw, path, v)) ==> r == Unresolved)
  {
    hide ResolveTokenFact, Offers, ExtractClaimValues, Split, Join, LeadsTo, AnyToStrings, Offered;
    OtherKey(Join(path, "."), claims);
    SplitIs(path, '.');
    assert ['.'] == ".";
    PathMeans(claims.raw, path);
    forall v | LeadsTo(claims.raw, path, v) ensures Offers(NonEmpty(AnyToStrings(v)), Offered(v)) {
      ValueOffers(v);
    }
  }
}
