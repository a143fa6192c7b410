/**
 The attribute conditions of the policy engine: facts about the token, the certificate and the request, the
 comparison operators, and the recursive evaluation of condition trees.
 */
module Conditions {
  import opened Text
  import opened StringLists

  /**
   A decoded YAML or JSON value. What `fmt` prints for a value that is not a string is part of the value, and
   an object lists its entries in the order in which they are ranged over.
   */
  datatype Value =
    | Null
    | Str(text: string)
    | Num(shown: string, number: real)
    | List(items: seq<Value>, shown: string)
    | Obj(entries: seq<(string, Value)>, shown: string)
    | Other(shown: string)

  /**
   Library behaviour that the engine relies on: number and duration parsing, regular expressions and the local
   time.
   */
  datatype Env = Env(
    parseFloat: string -> Option<real>,
    compiles: string -> bool,
    matches: (string, string) -> bool,
    hour: string,
    minute: string,
    weekday: string,
    parseDuration: string -> Option<int>)

  datatype TokenClaims = TokenClaims(
    subject: string, issuer: string, jwtId: string, audience: seq<string>, scopes: seq<string>,
    raw: seq<(string, Value)>)

  datatype ClientIdentity = ClientIdentity(subject: string, thumbprint: string, serialNumber: string, san: seq<string>)

  datatype PolicyRequest = PolicyRequest(method_: string, path: string)

  // ---------- values ----------

  function NormalizeToString(v: Value): string {
    match v
    case Null => "<nil>"
    case Str(text) => Trim(text)
    case Num(shown, _) => Trim(shown)
    case List(_, shown) => Trim(shown)
    case Obj(_, shown) => Trim(shown)
    case Other(shown) => Trim(shown)
  }

  function AnyToStrings(v: Value): seq<string> {
    match v
    case Null => []
    case List(items, _) => NormalizeList(seq(|items|, i requires 0 <= i < |items| => NormalizeToString(items[i])))
    case Obj(entries, _) => NormalizeList(seq(|entries|, i requires 0 <= i < |entries| => entries[i].0))
    case _ => NormalizeList([NormalizeToString(v)])
  }

  function AnyToNumber(v: Value, env: Env): Option<real> {
    match v
    case Num(_, number) => Some(number)
    case Str(text) => env.parseFloat(Trim(text))
    case _ => None
  }

  function Numbers(items: seq<Value>, env: Env): seq<real> {
    if items == [] then []
    else
      var n := AnyToNumber(items[0], env);
      if n.Some? then [n.value] + Numbers(items[1..], env) else Numbers(items[1..], env)
  }

  /** `anyToFloatSlice` */
  function AnyToNumbers(v: Value, env: Env): seq<real> {
    match v
    case List(items, _) => Numbers(items, env)
    case _ => Numbers([v], env)
  }

  function EntryOf(entries: seq<(string, Value)>, key: string): Option<Value> {
    if entries == [] then None
    else if entries[0].0 == key then Some(entries[0].1)
    else EntryOf(entries[1..], key)
  }

  /** strings.Split(s, sep) for a single byte. */
  function Split(s: string, sep: char): (parts: seq<string>)
    ensures |parts| > 0
  {
    var i := IndexOf(s, sep);
    if i == |s| then [s] else [s[..i]] + Split(s[i + 1..], sep)
  }

  function ExtractClaimValues(raw: seq<(string, Value)>, path: seq<string>): seq<string>
    decreases |path|
  {
    if raw == [] || path == [] then []
    else
      match EntryOf(raw, Trim(path[0]))
      case None => []
      case Some(next) =>
        if |path| == 1 then AnyToStrings(next)
        else if next.Obj? then ExtractClaimValues(next.entries, path[1..])
        else []
  }

  function NormalizePolicyPath(path: string): (p: string)
    ensures p != "" && p[0] == '/'
  {
    var t := Trim(path);
    if t == "" then "/" else if t[0] != '/' then "/" + t else t
  }

  // ---------- facts ----------

  datatype Resolved = Values(values: seq<string>) | Unresolved

  function NonEmpty(values: seq<string>): Resolved {
    if values == [] then Unresolved else Values(values)
  }

  /** `resolveFact`: "source.attribute.path". */
  function ResolveFact(
    fact: string, claims: Option<TokenClaims>, identity: Option<ClientIdentity>, req: PolicyRequest, env: Env): Resolved
  {
    var f := Trim(fact);
    var dot := IndexOf(f, '.');
    if dot == |f| then Unresolved
    else
      var source, path := Lower(Trim(f[..dot])), Lower(Trim(Trim(f[dot + 1..])));
      if source == "token" && claims.Some? then ResolveTokenFact(path, claims.value)
      else if source == "cert" && identity.Some? then ResolveCertFact(path, identity.value)
      else if source == "request" then ResolveRequestFact(path, req, env)
      else Unresolved
  }

  function ResolveTokenFact(key: string, claims: TokenClaims): Resolved {
    if key == "sub" || key == "subject" then NonEmpty(NormalizeList([claims.subject]))
    else if key == "iss" || key == "issuer" then NonEmpty(NormalizeList([claims.issuer]))
    else if key == "aud" || key == "audience" then NonEmpty(NormalizeList(claims.audience))
    else if key == "jti" then NonEmpty(NormalizeList([claims.jwtId]))
    else if key == "scope" || key == "scopes" then NonEmpty(NormalizeList(claims.scopes))
    else NonEmpty(ExtractClaimValues(claims.raw, Split(key, '.')))
  }

  function ResolveCertFact(key: string, identity: ClientIdentity): Resolved {
    if key == "sub" || key == "subject" then NonEmpty(NormalizeList([identity.subject]))
    else if key == "thumbprint" then NonEmpty(NormalizeList([identity.thumbprint]))
    else if key == "serial" || key == "serial_number" then NonEmpty(NormalizeList([identity.serialNumber]))
    else if key == "san" then NonEmpty(NormalizeList(identity.san))
    else Unresolved
  }

  function ResolveRequestFact(key: string, req: PolicyRequest, env: Env): Resolved {
    if key == "method" then Values([Upper(Trim(req.method_))])
    else if key == "path" then Values([NormalizePolicyPath(req.path)])
    else if key == "time.hour" then Values([env.hour])
    else if key == "time.minute" then Values([env.minute])
    else if key == "time.day_of_week" || key == "time.dayofweek" || key == "time.dow" then Values([env.weekday])
    else Unresolved
  }

  // ---------- comparison ----------

  predicate OccursAt(s: string, t: string, i: int) {
    0 <= i <= |s| - |t| && s[i..i + |t|] == t
  }

  /** strings.Contains */
  predicate Contains(s: string, t: string) {
    exists i :: 0 <= i <= |s| && OccursAt(s, t, i)
  }

  predicate AnyEqual(values: seq<string>, expected: string) {
    exists i :: 0 <= i < |values| && EqualFold(values[i], expected)
  }

  predicate AnyMeets(actual: seq<string>, op: string, expected: Value, env: Env) {
    exists i :: 0 <= i < |actual| && Meets(actual[i], op, expected, env)
  }

  /** `compareValues`, without the reason. */
  predicate Compares(actual: seq<string>, op: string, expected: Value, env: Env) {
    if actual == [] || op == "not_exists" then false
    else if op == "exists" then true
    else if op == "neq" then !AnyEqual(actual, NormalizeToString(expected))
    else if op == "matches" && !env.compiles(NormalizeToString(expected)) then false
    else AnyMeets(actual, op, expected, env)
  }

  /** One actual value meets the expectation; "not" operators are not of this kind. */
  predicate Meets(a: string, op: string, expected: Value, env: Env) {
    if op == "eq" then EqualFold(a, NormalizeToString(expected))
    else if op == "in" then AnyEqual(AnyToStrings(expected), a)
    else if op == "contains" then Contains(Lower(a), Lower(NormalizeToString(expected)))
    else if op == "matches" then env.matches(NormalizeToString(expected), a)
    else MeetsNumber(env.parseFloat(Trim(a)), op, AnyToNumbers(expected, env))
  }

  /** `compareNumeric` for one value. */
  predicate MeetsNumber(a: Option<real>, op: string, bounds: seq<real>) {
    && a.Some? && bounds != []
    && (if op == "gt" then a.value > bounds[0]
        else if op == "gte" then a.value >= bounds[0]
        else if op == "lt" then a.value < bounds[0]
        else if op == "lte" then a.value <= bounds[0]
        else op == "between" && |bounds| >= 2 && bounds[0] <= a.value <= bounds[1])
  }

  // ---------- trees ----------

  /** A list of conditions that a document gives or leaves out; an empty list is given too. */
  datatype Branch = Unset | Given(list: seq<Condition>)

  datatype Condition = Condition(
    all: Branch, any: Branch, not: Option<Condition>, fact: string, operator: string, value: Value)

  datatype Reason =
    | MissingFact
    | MissingOperator
    | UnresolvedFact(fact: string)
    | NotMet(operator: string, actual: seq<string>)
    | NoneMatched
    | MissingInner
    | InnerTrue

  datatype Verdict = Holds | Fails(reason: Reason)

  function Op(c: Condition): string {
    Lower(Trim(c.operator))
  }

  /** `evaluateCondition` over any resolver of facts. */
  function Evaluate(c: Condition, facts: string -> Resolved, env: Env): Verdict
    decreases c, 1
  {
    if Op(c) == "and" || (c.all.Given? && Op(c) == "") then
      if c.all.Unset? then Holds else EvaluateAll(c.all.list, facts, env)
    else if Op(c) == "or" || (c.any.Given? && Op(c) == "") then
      if c.any.Unset? || c.any.list == [] then Holds else EvaluateAny(c.any.list, facts, env)
    else if Op(c) == "not" || c.not.Some? then
      if c.not.None? then Fails(MissingInner)
      else if Evaluate(c.not.value, facts, env).Holds? then Fails(InnerTrue)
      else Holds
    else EvaluateLeaf(c, facts, env)
  }

  function EvaluateLeaf(c: Condition, facts: string -> Resolved, env: Env): Verdict {
    if IsBlank(c.fact) then Fails(MissingFact)
    else if Op(c) == "" then Fails(MissingOperator)
    else
      match facts(c.fact)
      case Unresolved => Fails(UnresolvedFact(c.fact))
      case Values(actual) =>
        if Compares(actual, Op(c), c.value, env) then Holds else Fails(NotMet(Op(c), actual))
  }

  function EvaluateAll(cs: seq<Condition>, facts: string -> Resolved, env: Env): Verdict
    decreases cs, 0
  {
    if cs == [] then Holds
    else
      var first := Evaluate(cs[0], facts, env);
      if first.Fails? then first else EvaluateAll(cs[1..], facts, env)
  }

  function EvaluateAny(cs: seq<Condition>, facts: string -> Resolved, env: Env): Verdict
    decreases cs, 0
  {
    if cs == [] then Fails(NoneMatched)
    else if Evaluate(cs[0], facts, env).Holds? then Holds
    else EvaluateAny(cs[1..], facts, env)
  }

  // ---------- what the lists mean ----------

  lemma {:induction false} AllMeansEvery(cs: seq<Condition>, facts: string -> Resolved, env: Env)
    ensures EvaluateAll(cs, facts, env).Holds? <==> forall i :: 0 <= i < |cs| ==> Evaluate(cs[i], facts, env).Holds?
  {
    if cs != [] {
      AllMeansEvery(cs[1..], facts, env);
      assert forall i :: 1 <= i < |cs| ==> cs[i] == cs[1..][i - 1];
      assert forall i :: 0 <= i < |cs| - 1 ==> cs[1..][i] == cs[i + 1];
    }
  }

  lemma {:induction false} AnyMeansSome(cs: seq<Condition>, facts: string -> Resolved, env: Env)
    ensures EvaluateAny(cs, facts, env).Holds? <==> exists i :: 0 <= i < |cs| && Evaluate(cs[i], facts, env).Holds?
  {
    if cs != [] {
      AnyMeansSome(cs[1..], facts, env);
      assert forall i :: 1 <= i < |cs| ==> cs[i] == cs[1..][i - 1];
      assert forall i :: 0 <= i < |cs| - 1 ==> cs[1..][i] == cs[i + 1];
    }
  }

  /**
   `not_exists` is never satisfied: a fact that does not resolve fails before the operator is looked at, and one
   that resolves exists.
   */
  lemma NotExistsNeverHolds(c: Condition, facts: string -> Resolved, env: Env)
    requires Op(c) == "not_exists" && c.not.None?
    ensures Evaluate(c, facts, env).Fails?
  {}

  // ---------- De Morgan ----------

  function AllOf(cs: seq<Condition>): Condition {
    Condition(Given(cs), Unset, None, "", "", Null)
  }

  function AnyOf(cs: seq<Condition>): Condition {
    Condition(Unset, Given(cs), None, "", "", Null)
  }

  function Not(c: Condition): Condition {
    Condition(Unset, Unset, Some(c), "", "", Null)
  }

  function Negated(cs: seq<Condition>): seq<Condition> {
    seq(|cs|, i requires 0 <= i < |cs| => Not(cs[i]))
  }

  lemma EmptyOperator()
    ensures Lower(Trim("")) == ""
  {}

  lemma NotMeans(c: Condition, facts: string -> Resolved, env: Env)
    ensures Evaluate(Not(c), facts, env).Holds? <==> !Evaluate(c, facts, env).Holds?
  {
    EmptyOperator();
  }

  lemma DoubleNegation(c: Condition, facts: string -> Resolved, env: Env)
    ensures Evaluate(Not(Not(c)), facts, env).Holds? <==> Evaluate(c, facts, env).Holds?
  {
    NotMeans(c, facts, env);
    NotMeans(Not(c), facts, env);
  }

  lemma AllOfMeans(cs: seq<Condition>, facts: string -> Resolved, env: Env)
    ensures Evaluate(AllOf(cs), facts, env).Holds? <==> EvaluateAll(cs, facts, env).Holds?
    ensures Evaluate(AnyOf(cs), facts, env).Holds? <==> cs == [] || EvaluateAny(cs, facts, env).Holds?
  {
    EmptyOperator();
  }

  /** De Morgan's laws hold through the evaluator exactly for non-empty lists, since an empty `any` is satisfied too. */
  lemma DeMorgan(cs: seq<Condition>, facts: string -> Resolved, env: Env)
    ensures cs != [] <==>
      (Evaluate(Not(AllOf(cs)), facts, env).Holds? <==> Evaluate(AnyOf(Negated(cs)), facts, env).Holds?)
    ensures cs != [] <==>
      (Evaluate(Not(AnyOf(cs)), facts, env).Holds? <==> Evaluate(AllOf(Negated(cs)), facts, env).Holds?)
  {
    hide Evaluate, EvaluateAll, EvaluateAny;
    NotMeans(AllOf(cs), facts, env);
    NotMeans(AnyOf(cs), facts, env);
    AllOfMeans(cs, facts, env);
    AllOfMeans(Negated(cs), facts, env);
    AllMeansEvery(cs, facts, env);
    AnyMeansSome(cs, facts, env);
    AllMeansEvery(Negated(cs), facts, env);
    AnyMeansSome(Negated(cs), facts, env);
    forall i | 0 <= i < |cs|
      ensures Evaluate(Negated(cs)[i], facts, env).Holds? <==> !Evaluate(cs[i], facts, env).Holds?
    {
      NotMeans(cs[i], facts, env);
    }
  }

  // ---------- monotonicity ----------

  /** No negation anywhere in the tree. */
  predicate Positive(c: Condition) {
    && Op(c) != "not" && Op(c) != "neq" && Op(c) != "not_exists" && c.not.None?
    && (c.all.Given? ==> forall i :: 0 <= i < |c.all.list| ==> Positive(c.all.list[i]))
    && (c.any.Given? ==> forall i :: 0 <= i < |c.any.list| ==> Positive(c.any.list[i]))
  }

  predicate Grows(a: Resolved, b: Resolved) {
    a.Values? ==> b.Values? && forall v :: v in a.values ==> v in b.values
  }

  ghost predicate FactsGrow(f: string -> Resolved, g: string -> Resolved) {
    forall fact :: Grows(f(fact), g(fact))
  }

  lemma ComparesGrows(a: seq<string>, b: seq<string>, op: string, expected: Value, env: Env)
    requires op != "neq" && Compares(a, op, expected, env) && forall v :: v in a ==> v in b
    ensures Compares(b, op, expected, env)
  {
    assert a[0] in b;
    if op != "exists" {
      assert AnyMeets(a, op, expected, env);
      var i :| 0 <= i < |a| && Meets(a[i], op, expected, env);
      assert a[i] in a;
      var j :| 0 <= j < |b| && b[j] == a[i];
      assert Meets(b[j], op, expected, env);
      assert AnyMeets(b, op, expected, env);
    }
  }

  /** More resolved values never turn a satisfied positive condition unsatisfied. */
  lemma {:induction false} PositiveIsMonotone(c: Condition, f: string -> Resolved, g: string -> Resolved, env: Env)
    requires Positive(c) && FactsGrow(f, g) && Evaluate(c, f, env).Holds?
    ensures Evaluate(c, g, env).Holds?
    decreases c, 1
  {
    if Op(c) == "and" || (c.all.Given? && Op(c) == "") {
      if c.all.Given? {
        AllIsMonotone(c.all.list, f, g, env);
      }
    } else if Op(c) == "or" || (c.any.Given? && Op(c) == "") {
      if c.any.Given? && c.any.list != [] {
        AnyIsMonotone(c.any.list, f, g, env);
      }
    } else {
      assert Grows(f(c.fact), g(c.fact));
      ComparesGrows(f(c.fact).values, g(c.fact).values, Op(c), c.value, env);
    }
  }

  lemma {:induction false} AllIsMonotone(cs: seq<Condition>, f: string -> Resolved, g: string -> Resolved, env: Env)
    requires (forall i :: 0 <= i < |cs| ==> Positive(cs[i])) && FactsGrow(f, g) && EvaluateAll(cs, f, env).Holds?
    ensures EvaluateAll(cs, g, env).Holds?
    decreases cs, 0
  {
    if cs != [] {
      PositiveIsMonotone(cs[0], f, g, env);
      AllIsMonotone(cs[1..], f, g, env);
    }
  }

  lemma {:induction false} AnyIsMonotone(cs: seq<Condition>, f: string -> Resolved, g: string -> Resolved, env: Env)
    requires (forall i :: 0 <= i < |cs| ==> Positive(cs[i])) && FactsGrow(f, g) && EvaluateAny(cs, f, env).Holds?
    ensures EvaluateAny(cs, g, env).Holds?
    decreases cs, 0
  {
    if cs != [] {
      if Evaluate(cs[0], f, env).Holds? {
        PositiveIsMonotone(cs[0], f, g, env);
      } else {
        AnyIsMonotone(cs[1..], f, g, env);
      }
    }
  }

  /** A token with more audiences and scopes, and nothing else different. */
  predicate Extends(a: TokenClaims, b: TokenClaims) {
    && b == a.(audience := b.audience, scopes := b.scopes)
    && (forall v :: v in a.audience ==> v in b.audience)
    && (forall v :: v in a.scopes ==> v in b.scopes)
  }

  lemma NormalizeGrows(a: seq<string>, b: seq<string>)
    requires forall v :: v in a ==> v in b
    ensures Grows(NonEmpty(NormalizeList(a)), NonEmpty(NormalizeList(b)))
  {
    forall v | v in NormalizeList(a) ensures v in NormalizeList(b) {
      SortMembers(Cleaned(a), v);
      CleanedMembers(a, v);
      var i :| 0 <= i < |a| && Trim(a[i]) == v;
      assert a[i] in b;
      var j :| 0 <= j < |b| && b[j] == a[i];
      assert Trim(b[j]) == v;
      CleanedMembers(b, v);
      SortMembers(Cleaned(b), v);
    }
    if NormalizeList(a) != [] {
      assert NormalizeList(a)[0] in NormalizeList(b);
    }
  }

  lemma ResolveGrows(
    fact: string, a: TokenClaims, b: TokenClaims, identity: Option<ClientIdentity>, req: PolicyRequest, env: Env)
    requires Extends(a, b)
    ensures Grows(ResolveFact(fact, Some(a), identity, req, env), ResolveFact(fact, Some(b), identity, req, env))
  {
    hide *;
    ResolveCases(fact, a, identity, req, env);
    ResolveCases(fact, b, identity, req, env);
    TokenFactGrows(TokenKey(fact), a, b);
    GrowsRefl(ResolveFact(fact, None, identity, req, env));
  }

  /** What follows the dot of a fact. */
  function TokenKey(fact: string): string {
    var f := Trim(fact);
    var dot := IndexOf(f, '.');
    if dot == |f| then "" else Lower(Trim(Trim(f[dot + 1..])))
  }

  predicate AboutToken(fact: string) {
    var f := Trim(fact);
    IndexOf(f, '.') < |f| && Lower(Trim(f[..IndexOf(f, '.')])) == "token"
  }

  /** Only facts about the token depend on the token. */
  lemma ResolveCases(
    fact: string, claims: TokenClaims, identity: Option<ClientIdentity>, req: PolicyRequest, env: Env)
    ensures ResolveFact(fact, Some(claims), identity, req, env) ==
      if AboutToken(fact) then ResolveTokenFact(TokenKey(fact), claims) else ResolveFact(fact, None, identity, req, env)
  {
    hide Trim, Lower, ResolveTokenFact, ResolveCertFact, ResolveRequestFact;
  }

  lemma TokenFactGrows(key: string, a: TokenClaims, b: TokenClaims)
    requires Extends(a, b)
    ensures Grows(ResolveTokenFact(key, a), ResolveTokenFact(key, b))
  {
    NormalizeGrows(a.audience, b.audience);
    NormalizeGrows(a.scopes, b.scopes);
    hide NormalizeList, ExtractClaimValues, Split, NonEmpty;
  }

  lemma GrowsRefl(r: Resolved)
    ensures Grows(r, r)
  {}

  /** Granting a token more scopes or audiences never makes it fail a positive constraint that it met. */
  lemma MoreScopesNeverHurt(
    c: Condition, a: TokenClaims, b: TokenClaims, identity: Option<ClientIdentity>, req: PolicyRequest, env: Env)
    requires Positive(c) && Extends(a, b)
    requires Evaluate(c, fact => ResolveFact(fact, Some(a), identity, req, env), env).Holds?
    ensures Evaluate(c, fact => ResolveFact(fact, Some(b), identity, req, env), env).Holds?
  {
    var f := (fact: string) => ResolveFact(fact, Some(a), identity, req, env);
    var g := (fact: string) => ResolveFact(fact, Some(b), identity, req, env);
    forall fact ensures Grows(f(fact), g(fact)) {
      ResolveGrows(fact, a, b, identity, req, env);
    }
    PositiveIsMonotone(c, f, g, env);
  }
}
