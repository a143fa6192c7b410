/**
 What a loaded policy does, in terms of what is written in it: when a rule applies to a request, when its conditions
 are met, what a rule on its own decides, and which rate limit the decision carries.
 */
module PolicyLaws {
  import opened Text
  import opened StringLists
  import opened Conditions
  import opened ConditionLaws
  import opened Policy

  // ---------- paths ----------

  /** White space around a path and a missing slash before it make no difference; a path that has its slash is kept. */
  lemma PathForm(path: string)
    ensures NormalizePolicyPath(path) == NormalizePolicyPath(Trim(path))
    ensures Trim(path) == "" ==> NormalizePolicyPath(path) == "/"
    ensures Trim(path) != "" && Trim(path)[0] == '/' ==> NormalizePolicyPath(path) == Trim(path)
    ensures Trim(path) != "" && Trim(path)[0] != '/' ==> NormalizePolicyPath(path) == "/" + Trim(path)
  {
    TrimIsTight(path);
    hide Trim;
  }

  // ---------- when a rule as written applies ----------

  /** The request is at the path, under the prefix and of one of the methods, as far as they are written. */
  ghost predicate Fits(rule: PolicyRule, m: string, path: string) {
    && (Trim(rule.match_.path) != "" ==> path == NormalizePolicyPath(rule.match_.path))
    && (Trim(rule.match_.pathPrefix) != "" ==>
          |NormalizePolicyPath(rule.match_.pathPrefix)| <= |path|
          && path[..|NormalizePolicyPath(rule.match_.pathPrefix)|] == NormalizePolicyPath(rule.match_.pathPrefix))
    && ((exists y :: Configured(rule.match_.methods, y)) ==>
          exists i :: 0 <= i < |rule.match_.methods| && Lower(Trim(rule.match_.methods[i])) == Lower(Trim(m))
                      && Trim(rule.match_.methods[i]) != "")
  }

  lemma {:induction false} UpperKeepsFold(a: string)
    ensures Lower(Upper(a)) == Lower(a)
  {
    forall i | 0 <= i < |a| ensures LowerChar(UpperChar(a[i])) == LowerChar(a[i]) {}
  }

  /** The methods of a loaded rule are those written, trimmed and in upper case. */
  lemma LoadedMethod(methods: seq<string>, y: string)
    ensures y in NormalizeList(UpperTrimmed(methods)) <==>
      exists i :: 0 <= i < |methods| && Trim(methods[i]) != "" && Upper(Trim(methods[i])) == y
  {
    hide NormalizeList, Trim, Upper;
    NormalizedMembers(UpperTrimmed(methods), y);
    forall i | 0 <= i < |methods| ensures Trim(UpperTrimmed(methods)[i]) == Upper(Trim(methods[i])) {
      UpperStaysTrimmed(methods[i]);
    }
    if Configured(UpperTrimmed(methods), y) {
      var i :| 0 <= i < |methods| && Trim(UpperTrimmed(methods)[i]) == y;
      UpperBlank(Trim(methods[i]));
    }
    if i :| 0 <= i < |methods| && Trim(methods[i]) != "" && Upper(Trim(methods[i])) == y {
      assert Trim(UpperTrimmed(methods)[i]) == y;
      UpperBlank(Trim(methods[i]));
    }
  }

  lemma UpperBlank(s: string)
    ensures Upper(s) == "" <==> s == ""
  {}

  lemma UpperStaysTrimmed(s: string)
    ensures Trim(Upper(Trim(s))) == Upper(Trim(s))
  {
    TrimIsTight(s);
    CaseKeepsTrimmed(Trim(s));
  }

  lemma MethodFits(methods: seq<string>, m: string)
    ensures HasMethod(NormalizeList(UpperTrimmed(methods)), m) <==>
      exists i :: 0 <= i < |methods| && Lower(Trim(methods[i])) == Lower(Trim(m)) && Trim(methods[i]) != ""
  {
    hide NormalizeList, Trim, Upper, Lower;
    var list := NormalizeList(UpperTrimmed(methods));
    if HasMethod(list, m) {
      var k :| 0 <= k < |list| && EqualFold(Trim(list[k]), Trim(m));
      LoadedMethod(methods, list[k]);
      var i :| 0 <= i < |methods| && Trim(methods[i]) != "" && Upper(Trim(methods[i])) == list[k];
      UpperKeepsFold(Trim(methods[i]));
      UpperStaysTrimmed(methods[i]);
    }
    if i :| 0 <= i < |methods| && Lower(Trim(methods[i])) == Lower(Trim(m)) && Trim(methods[i]) != "" {
      LoadedMethod(methods, Upper(Trim(methods[i])));
      var k :| 0 <= k < |list| && list[k] == Upper(Trim(methods[i]));
      UpperKeepsFold(Trim(methods[i]));
      UpperStaysTrimmed(methods[i]);
      assert EqualFold(Trim(list[k]), Trim(m));
    }
  }

  lemma SomeMethod(methods: seq<string>)
    ensures NormalizeList(UpperTrimmed(methods)) != [] <==> exists y :: Configured(methods, y)
  {
    hide NormalizeList, Trim, Upper;
    var list := NormalizeList(UpperTrimmed(methods));
    if list != [] {
      LoadedMethod(methods, list[0]);
      var i :| 0 <= i < |methods| && Trim(methods[i]) != "" && Upper(Trim(methods[i])) == list[0];
      assert Configured(methods, Trim(methods[i]));
    }
    if y :| Configured(methods, y) {
      var i :| 0 <= i < |methods| && Trim(methods[i]) == y;
      LoadedMethod(methods, Upper(Trim(methods[i])));
      assert Upper(Trim(methods[i])) in list;
    }
  }

  lemma LoadedFits(rule: PolicyRule, s: Subject)
    ensures Matches(NormalizeRule(rule), s) <==> Fits(rule, s.method_, s.path)
  {
    hide NormalizeList, HasMethod, Trim, NormalizePolicyPath, NormalizeClaims, NormalizeLimit, UpperTrimmed, Lower;
    PathForm(rule.match_.path);
    PathForm(rule.match_.pathPrefix);
    MethodFits(rule.match_.methods, s.method_);
    SomeMethod(rule.match_.methods);
  }

  // ---------- when the conditions of a rule as written are met ----------

  /** The token carries this value under this claim. */
  ghost predicate Carries(claims: TokenClaims, claim: string, y: string) {
    match claim
    case "sub" => Configured([claims.subject], y)
    case "iss" => Configured([claims.issuer], y)
    case "aud" => Configured(claims.audience, y)
    case "jti" => Configured([claims.jwtId], y)
    case _ => exists path, v :: IsPath(path, claim) && LeadsTo(claims.raw, path, v) && Configured(Offered(v), y)
  }

  /** The keys of a path, written with dots between them. */
  predicate IsPath(path: seq<string>, text: string) {
    path != [] && (forall k :: 0 <= k < |path| ==> '.' !in path[k]) && Join(path, ".") == text
  }

  /** Some value is written in the list, and the token carries one of them. */
  ghost predicate ClaimMet(claims: TokenClaims, claim: string, allowed: seq<string>) {
    (exists y :: Configured(allowed, y)) ==> exists y :: Configured(allowed, y) && Carries(claims, claim, y)
  }

  /** Every list that is written holds what the token or the certificate has, and the constraint is satisfied. */
  ghost predicate Met(written: PolicyConditions, claims: TokenClaims, identity: ClientIdentity, env: Env) {
    && ((exists y :: Configured(written.tokenSubjects, y)) ==> Configured(written.tokenSubjects, Trim(claims.subject)))
    && ((exists y :: Configured(written.certSubjects, y)) ==> Configured(written.certSubjects, Trim(identity.subject)))
    && (forall i: nat, key :: i < |written.claims| && LastOfKey(written.claims, i, key) && key != "" ==>
          ClaimMet(claims, key, written.claims[i].1))
    && (written.constraint.Some? ==>
          Evaluate(written.constraint.value,
                   fact => ResolveFact(fact, Some(claims), Some(identity), PolicyRequest("", ""), env), env).Holds?)
  }

  /** ... by a request that has claims; one without a certificate counts as one with an empty certificate. */
  ghost predicate MetBy(written: PolicyConditions, s: Subject) {
    && s.claims.Some?
    && Met(
         written, s.claims.value, if s.identity.Some? then s.identity.value else ClientIdentity("", "", "", []), s.env)
  }

  /** The parts of a text around a separator, as a path. */
  lemma {:induction false} SplitJoins(s: string, sep: char)
    ensures Join(Split(s, sep), [sep]) == s && forall k :: 0 <= k < |Split(s, sep)| ==> sep !in Split(s, sep)[k]
    decreases |s|
  {
    var i := IndexOf(s, sep);
    if i == |s| {
      assert s[..i] == s;
    } else {
      SplitJoins(s[i + 1..], sep);
      assert s == s[..i] + [sep] + s[i + 1..];
      var parts := Split(s, sep);
      assert parts[1..] == Split(s[i + 1..], sep);
    }
  }

  lemma PathCarries(claims: TokenClaims, key: string, y: string)
    ensures y in ExtractClaimValues(claims.raw, Split(key, '.')) <==>
      exists path, v :: IsPath(path, key) && LeadsTo(claims.raw, path, v) && Configured(Offered(v), y)
  {
    hide ExtractClaimValues, Split, LeadsTo, AnyToStrings, Offered, Configured, Join;
    var path := Split(key, '.');
    SplitJoins(key, '.');
    assert ['.'] == ".";
    PathMeans(claims.raw, path);
    if y in ExtractClaimValues(claims.raw, path) {
      var v :| LeadsTo(claims.raw, path, v);
      OfferedMembers(v, y);
      assert IsPath(path, key);
    }
    if p, v :| IsPath(p, key) && LeadsTo(claims.raw, p, v) && Configured(Offered(v), y) {
      SplitIs(p, '.');
      OfferedMembers(v, y);
    }
  }

  lemma CarriesValues(claims: TokenClaims, key: string, y: string)
    requires Lower(Trim(key)) == key
    ensures y in TokenClaimValues(claims, key) <==> Carries(claims, key, y)
  {
    hide NormalizeList, ExtractClaimValues, Split, Configured, IsPath, LeadsTo, Offered, Lower, Trim;
    NormalizedMembers([claims.subject], y);
    NormalizedMembers([claims.issuer], y);
    NormalizedMembers(claims.audience, y);
    NormalizedMembers([claims.jwtId], y);
    PathCarries(claims, key, y);
  }

  lemma AllowedCarries(claims: TokenClaims, key: string, values: seq<string>)
    requires Lower(Trim(key)) == key
    ensures ClaimAllowed(claims, key, NormalizeList(values)) <==>
      exists y :: Configured(values, y) && Carries(claims, key, y)
  {
    hide NormalizeList, TokenClaimValues, Configured, Carries, InList, Lower, Trim;
    var actual := TokenClaimValues(claims, key);
    if ClaimAllowed(claims, key, NormalizeList(values)) {
      var i :| 0 <= i < |actual| && InList(actual[i], NormalizeList(values));
      NormalizedMembership(values, actual[i]);
      CarriesValues(claims, key, actual[i]);
    }
    if y :| Configured(values, y) && Carries(claims, key, y) {
      CarriesValues(claims, key, y);
      NormalizedMembership(values, y);
      var i :| 0 <= i < |actual| && actual[i] == y;
    }
  }

  lemma {:induction false} NoClaimDenied(claims: TokenClaims, wanted: seq<(string, seq<string>)>)
    ensures ClaimDenial(claims, wanted) == NoDenial <==>
      forall e :: e in wanted ==> e.1 == [] || ClaimAllowed(claims, e.0, e.1)
  {
    hide ClaimAllowed;
    if wanted != [] {
      NoClaimDenied(claims, wanted[1..]);
      assert wanted == [wanted[0]] + wanted[1..];
    }
  }

  lemma EmptyList(values: seq<string>)
    ensures NormalizeList(values) == [] <==> forall y :: !Configured(values, y)
  {
    hide NormalizeList, Configured;
    forall y ensures y in NormalizeList(values) <==> Configured(values, y) {
      NormalizedMembers(values, y);
    }
    if NormalizeList(values) != [] {
      assert NormalizeList(values)[0] in NormalizeList(values);
    }
  }

  lemma ClaimsMet(claims: TokenClaims, wanted: seq<(string, seq<string>)>)
    ensures ClaimDenial(claims, NormalizeClaims(wanted)) == NoDenial <==>
      forall i: nat, key :: i < |wanted| && LastOfKey(wanted, i, key) && key != "" ==>
        ClaimMet(claims, key, wanted[i].1)
  {
    hide ClaimDenial, NormalizeClaims, NormalizeList, ClaimAllowed, ClaimMet, LastOfKey;
    NoClaimDenied(claims, NormalizeClaims(wanted));
    forall i: nat, key | i < |wanted| && LastOfKey(wanted, i, key) && key != ""
      ensures (key, NormalizeList(wanted[i].1)) in NormalizeClaims(wanted)
      ensures ClaimMet(claims, key, wanted[i].1) <==>
        NormalizeList(wanted[i].1) == [] || ClaimAllowed(claims, key, NormalizeList(wanted[i].1))
    {
      NormalizedClaims(wanted, (key, NormalizeList(wanted[i].1)));
      OneClaimMet(claims, wanted, i, key);
    }
    forall e | e in NormalizeClaims(wanted)
      ensures exists i: nat ::
        i < |wanted| && LastOfKey(wanted, i, e.0) && e.0 != "" && e.1 == NormalizeList(wanted[i].1)
    {
      NormalizedClaims(wanted, e);
    }
  }

  lemma OneClaimMet(claims: TokenClaims, wanted: seq<(string, seq<string>)>, i: nat, key: string)
    requires i < |wanted| && LastOfKey(wanted, i, key)
    ensures ClaimMet(claims, key, wanted[i].1) <==>
      NormalizeList(wanted[i].1) == [] || ClaimAllowed(claims, key, NormalizeList(wanted[i].1))
  {
    hide NormalizeList, ClaimAllowed, Configured, Carries, Lower, Trim;
    LowerTrimIdempotent(wanted[i].0);
    AllowedCarries(claims, key, wanted[i].1);
    EmptyList(wanted[i].1);
  }

  lemma SubjectMet(values: seq<string>, subject: string)
    ensures (NormalizeList(values) != [] && !InList(Trim(subject), NormalizeList(values))) <==>
      (exists y :: Configured(values, y)) && !Configured(values, Trim(subject))
  {
    hide NormalizeList, InList, Configured, Trim;
    EmptyList(values);
    NormalizedMembership(values, Trim(subject));
  }

  lemma ConstraintMet(c: Condition, claims: TokenClaims, identity: ClientIdentity, env: Env)
    ensures ConstraintDenial(c, claims, identity, env) == NoDenial <==>
      Evaluate(c, fact => ResolveFact(fact, Some(claims), Some(identity), PolicyRequest("", ""), env), env).Holds?
  {
    hide Evaluate, ResolveFact;
    var f := (fact: string) => ResolveFact(fact, Some(claims), Some(identity), NO_REQUEST, env);
    var g := (fact: string) => ResolveFact(fact, Some(claims), Some(identity), PolicyRequest("", ""), env);
    SameResolver(c, f, g, env);
  }

  /** The verdict depends on the facts only. */
  lemma {:induction false} SameResolver(c: Condition, f: string -> Resolved, g: string -> Resolved, env: Env)
    requires forall fact :: f(fact) == g(fact)
    ensures Evaluate(c, f, env) == Evaluate(c, g, env)
    decreases c, 1
  {
    if c.all.Given? {
      SameForAll(c.all.list, f, g, env);
    }
    if c.any.Given? {
      SameForAll(c.any.list, f, g, env);
    }
    if c.not.Some? {
      SameResolver(c.not.value, f, g, env);
    }
    hide Compares, Trim, Lower;
  }

  lemma {:induction false} SameForAll(cs: seq<Condition>, f: string -> Resolved, g: string -> Resolved, env: Env)
    requires forall fact :: f(fact) == g(fact)
    ensures EvaluateAll(cs, f, env) == EvaluateAll(cs, g, env) && EvaluateAny(cs, f, env) == EvaluateAny(cs, g, env)
    decreases cs, 0
  {
    if cs != [] {
      SameResolver(cs[0], f, g, env);
      SameForAll(cs[1..], f, g, env);
    }
  }

  lemma LoadedMet(rule: PolicyRule, s: Subject)
    ensures Satisfied(NormalizeRule(rule), s) <==> MetBy(rule.conditions, s)
  {
    hide NormalizeList, NormalizeClaims, NormalizeLimit, UpperTrimmed, Lower, Trim, InList, Configured, ClaimDenial,
      ClaimMet, LastOfKey, Evaluate, ResolveFact, ConstraintDenial;
    if s.claims.Some? {
      var claims := s.claims.value;
      var identity := if s.identity.Some? then s.identity.value else ClientIdentity("", "", "", []);
      SubjectMet(rule.conditions.tokenSubjects, claims.subject);
      SubjectMet(rule.conditions.certSubjects, identity.subject);
      ClaimsMet(claims, rule.conditions.claims);
      if rule.conditions.constraint.Some? {
        ConstraintMet(rule.conditions.constraint.value, claims, identity, s.env);
      }
    }
  }

  // ---------- the decision, as written ----------

  predicate DeniesByDefault(written: PolicyValue) {
    Lower(Trim(written.defaultAction)) == "deny"
  }

  /** The action of a rule is its own, or the default action when it has none. */
  predicate DenyRule(written: PolicyValue, rule: PolicyRule) {
    if Trim(rule.action) == "" then DeniesByDefault(written) else Lower(Trim(rule.action)) == "deny"
  }

  /** Rule `i` ends the scan: it applies, and its conditions are met or it denies. */
  ghost predicate Ends(written: PolicyValue, s: Subject, i: nat)
    requires i < |written.rules|
  {
    && Fits(written.rules[i], s.method_, s.path)
    && (MetBy(written.rules[i].conditions, s) || DenyRule(written, written.rules[i]))
  }

  ghost predicate GrantsAt(written: PolicyValue, s: Subject, i: nat)
    requires i < |written.rules|
  {
    && Fits(written.rules[i], s.method_, s.path) && MetBy(written.rules[i].conditions, s)
    && !DenyRule(written, written.rules[i])
    && forall j: nat :: j < i ==> !Ends(written, s, j)
  }

  lemma LoadedDefault(written: PolicyValue)
    ensures DefaultOf(NormalizePolicy(written)) == "deny" <==> DeniesByDefault(written)
  {
    LowerTrimIdempotent(written.defaultAction);
    AllowIsNormal();
    hide Trim, Lower, NormalizeRule;
  }

  lemma LoadedDenies(written: PolicyValue, rule: PolicyRule)
    ensures Denies(NormalizePolicy(written), NormalizeRule(rule)) <==> DenyRule(written, rule)
  {
    LoadedDefault(written);
    LowerTrimIdempotent(rule.action);
    TrimIsTight(rule.action);
    LowerBlank(Trim(rule.action));
    hide Trim, Lower, NormalizeList, NormalizeClaims, NormalizeLimit, UpperTrimmed, DefaultOf, DeniesByDefault;
  }

  lemma LowerBlank(s: string)
    ensures Lower(s) == "" <==> s == ""
  {}

  lemma LoadedDecides(written: PolicyValue, rule: PolicyRule, s: Subject)
    ensures Matches(NormalizeRule(rule), s) <==> Fits(rule, s.method_, s.path)
    ensures Satisfied(NormalizeRule(rule), s) <==> MetBy(rule.conditions, s)
    ensures Denies(NormalizePolicy(written), NormalizeRule(rule)) <==> DenyRule(written, rule)
    ensures Decides(NormalizePolicy(written), NormalizeRule(rule), s) <==>
      Fits(rule, s.method_, s.path) && (MetBy(rule.conditions, s) || DenyRule(written, rule))
  {
    hide Matches, Satisfied, Denies, Fits, MetBy, DenyRule, NormalizePolicy, NormalizeRule;
    LoadedFits(rule, s);
    LoadedMet(rule, s);
    LoadedDenies(written, rule);
  }

  lemma LoadedRules(written: PolicyValue)
    ensures |NormalizePolicy(written).rules| == |written.rules|
    ensures forall i :: 0 <= i < |written.rules| ==>
      NormalizePolicy(written).rules[i] == NormalizeRule(written.rules[i])
    ensures NormalizePolicy(written).global ==
      if written.global.None? then None else Some(NormalizeRule(written.global.value))
  {
    hide NormalizeRule;
  }

  lemma LoadedGrants(written: PolicyValue, s: Subject, i: nat)
    requires i < |written.rules| && |NormalizePolicy(written).rules| == |written.rules|
    ensures Grants(NormalizePolicy(written), s, i) <==> GrantsAt(written, s, i)
    ensures Decides(NormalizePolicy(written), NormalizePolicy(written).rules[i], s) <==> Ends(written, s, i)
  {
    hide Matches, Satisfied, Denies, Fits, MetBy, DenyRule, NormalizePolicy, NormalizeRule, Decides;
    LoadedRules(written);
    forall j: nat | j <= i
      ensures Decides(NormalizePolicy(written), NormalizePolicy(written).rules[j], s) <==> Ends(written, s, j)
    {
      LoadedDecides(written, written.rules[j], s);
    }
    LoadedDecides(written, written.rules[i], s);
  }

  lemma LoadedGlobal(written: PolicyValue, s: Subject)
    ensures GlobalPasses(NormalizePolicy(written), s) <==>
      (written.global.Some? ==> MetBy(written.global.value.conditions, s) && !DeniesByDefault(written))
  {
    hide Satisfied, MetBy, NormalizePolicy, NormalizeRule, DefaultOf, DeniesByDefault;
    LoadedRules(written);
    LoadedDefault(written);
    if written.global.Some? {
      LoadedMet(written.global.value, s);
    }
  }

  /**
   The decision of a loaded policy, in terms of the policy as it is written: allowed exactly when the conditions of
   the global rule are met and the default does not deny under it, and some rule that applies, is met and does not
   deny comes before every other rule that ends the scan, or no rule applies and the default does not deny.
   */
  lemma AllowedAsWritten(written: PolicyValue, s: Subject)
    ensures Decide(NormalizePolicy(written), s).allowed <==>
      && (written.global.Some? ==> MetBy(written.global.value.conditions, s) && !DeniesByDefault(written))
      && ((exists i: nat :: i < |written.rules| && GrantsAt(written, s, i))
          || ((forall i: nat :: i < |written.rules| ==> !Fits(written.rules[i], s.method_, s.path))
              && !DeniesByDefault(written)))
    ensures Decide(NormalizePolicy(written), s).status ==
      if Decide(NormalizePolicy(written), s).allowed then 200 else 403
  {
    hide Decide, NormalizePolicy, NormalizeRule, GlobalPasses, Matches, Grants, GrantsAt, Fits, MetBy, DeniesByDefault,
      DefaultOf;
    var p := NormalizePolicy(written);
    AllowedIff(p, s);
    LoadedRules(written);
    LoadedGlobal(written, s);
    LoadedDefault(written);
    forall i: nat | i < |written.rules|
      ensures Grants(p, s, i) <==> GrantsAt(written, s, i)
      ensures Matches(p.rules[i], s) <==> Fits(written.rules[i], s.method_, s.path)
    {
      LoadedGrants(written, s, i);
      LoadedFits(written.rules[i], s);
    }
  }

  /**
   A rule on its own under default deny allows exactly the requests to which it applies and that meet its conditions.
   */
  lemma SoleRule(rule: PolicyRule, s: Subject)
    ensures Decide(NormalizePolicy(PolicyValue("deny", None, [rule])), s).allowed <==>
      Fits(rule, s.method_, s.path) && MetBy(rule.conditions, s) && Lower(Trim(rule.action)) !in {"", "deny"}
  {
    var written := PolicyValue("deny", None, [rule]);
    AllowedAsWritten(written, s);
    DenyWord();
    LowerBlank(Trim(rule.action));
    hide Decide, NormalizePolicy, Fits, MetBy, Trim, Lower;
    assert GrantsAt(written, s, 0) <==>
      Fits(rule, s.method_, s.path) && MetBy(rule.conditions, s) && Lower(Trim(rule.action)) !in {"", "deny"};
  }

  lemma DenyWord()
    ensures Lower(Trim("deny")) == "deny"
  {
    AlreadyTrimmed("deny");
    assert Lower("deny") == "deny";
  }

  // ---------- rules that do not apply ----------

  /** A rule as it stands in the policy names another path, another prefix, or other methods. */
  ghost predicate Misfits(rule: PolicyRule, s: Subject) {
    || (rule.match_.path != "" && NormalizePolicyPath(rule.match_.path) != s.path)
    || (rule.match_.pathPrefix != "" && !(NormalizePolicyPath(rule.match_.pathPrefix) <= s.path))
    || (rule.match_.methods != []
        && forall i :: 0 <= i < |rule.match_.methods| ==> Lower(Trim(rule.match_.methods[i])) != Lower(Trim(s.method_)))
  }

  lemma {:induction false} LastMatchingAppend(a: seq<PolicyRule>, b: seq<PolicyRule>, s: Subject)
    ensures LastMatching(a + b, s) == if LastMatching(b, s).Some? then LastMatching(b, s) else LastMatching(a, s)
  {
    hide Matches;
    if b == [] {
      assert a + b == a;
    } else {
      assert (a + b)[..|a + b| - 1] == a + b[..|b| - 1];
      LastMatchingAppend(a, b[..|b| - 1], s);
    }
  }

  /** A rule that does not apply can be deleted without any effect on the decision. */
  lemma MisfitIsIgnored(p: PolicyValue, s: Subject, a: seq<PolicyRule>, rule: PolicyRule, b: seq<PolicyRule>)
    requires Misfits(rule, s)
    ensures Decide(p.(rules := a + [rule] + b), s) == Decide(p.(rules := a + b), s)
  {
    MisfitDoesNotMatch(rule, s);
    UnmatchedIsIgnored(p, s, a, rule, b);
  }

  lemma MisfitDoesNotMatch(rule: PolicyRule, s: Subject)
    requires Misfits(rule, s)
    ensures !Matches(rule, s)
  {
    hide Trim, Lower, NormalizePolicyPath;
  }

  lemma UnmatchedIsIgnored(p: PolicyValue, s: Subject, a: seq<PolicyRule>, rule: PolicyRule, b: seq<PolicyRule>)
    requires !Matches(rule, s)
    ensures Decide(p.(rules := a + [rule] + b), s) == Decide(p.(rules := a + b), s)
  {
    hide Matches, Satisfied, Denies;
    var q, r := p.(rules := a + [rule] + b), p.(rules := a + b);
    FirstDecidingAppend(q, a + [rule], b, s);
    FirstDecidingAppend(q, a, [rule], s);
    FirstDecidingAppend(q, a, b, s);
    OneMisses(q, rule, s);
    LastMatchingAppend(a + [rule], b, s);
    LastMatchingAppend(a, [rule], s);
    LastMatchingAppend(a, b, s);
    SameDecision(q, r, s);
  }

  lemma OneMisses(p: PolicyValue, rule: PolicyRule, s: Subject)
    requires !Matches(rule, s)
    ensures FirstDeciding(p, [rule], s) == None && LastMatching([rule], s) == None
  {
    hide Matches;
    assert [rule][1..] == [] && [rule][..0] == [];
  }

  /** The decision depends on the rules through the deciding rule and the last that matches. */
  lemma SameDecision(q: PolicyValue, r: PolicyValue, s: Subject)
    requires q.defaultAction == r.defaultAction && q.global == r.global
    requires FirstDeciding(q, q.rules, s) == FirstDeciding(q, r.rules, s)
    requires LastMatching(q.rules, s) == LastMatching(r.rules, s)
    ensures Decide(q, s) == Decide(r, s)
  {
    hide Matches, Satisfied, LimitOf, Dedupe, Failure, LastMatching;
    SameDeciding(q, r, r.rules, s);
  }

  lemma {:induction false} SameDeciding(q: PolicyValue, r: PolicyValue, rules: seq<PolicyRule>, s: Subject)
    requires q.defaultAction == r.defaultAction
    ensures FirstDeciding(q, rules, s) == FirstDeciding(r, rules, s)
  {
    hide Matches, Satisfied;
    if rules != [] {
      SameDeciding(q, r, rules[1..], s);
    }
  }

  /** The same of a policy as it is written. */
  lemma UnfitIsIgnored(written: PolicyValue, s: Subject, a: seq<PolicyRule>, rule: PolicyRule, b: seq<PolicyRule>)
    requires !Fits(rule, s.method_, s.path)
    ensures Decide(NormalizePolicy(written.(rules := a + [rule] + b)), s)
      == Decide(NormalizePolicy(written.(rules := a + b)), s)
  {
    hide Decide, Matches, NormalizeRule;
    LoadedFits(rule, s);
    var p := NormalizePolicy(written.(rules := []));
    var x := NormalizePolicy(written.(rules := a)).rules;
    var y := NormalizePolicy(written.(rules := b)).rules;
    assert NormalizePolicy(written.(rules := a + [rule] + b)) == p.(rules := x + [NormalizeRule(rule)] + y);
    assert NormalizePolicy(written.(rules := a + b)) == p.(rules := x + y);
    UnmatchedIsIgnored(p, s, x, NormalizeRule(rule), y);
  }

  // ---------- the rate limit of a decision ----------

  /**
   What a rate limit as written asks for: nothing unless it is enabled and positive; a minute and the subject by
   default.
   */
  ghost predicate Limits(written: PolicyRateLimit, env: Env, limit: Option<RateLimitDecision>) {
    && (limit.Some? <==> written.enabled && written.maxRequests > 0)
    && (limit.Some? ==>
          && limit.value.maxRequests == written.maxRequests
          && limit.value.identityBy ==
             (if Trim(written.identityBy) == "" then "sub" else Lower(Trim(written.identityBy)))
          && (forall d :: written.window != "" && env.parseDuration(Trim(written.window)) == Some(d) && d > 0 ==>
                limit.value.window == d)
          && ((forall d :: written.window != "" && env.parseDuration(Trim(written.window)) == Some(d) ==> d <= 0) ==>
                limit.value.window == 60_000_000_000))
  }

  lemma LoadedLimit(written: PolicyRateLimit, env: Env)
    ensures Limits(written, env, BuildRateLimit(written.(identityBy := Lower(Trim(written.identityBy))), env))
  {
    LowerTrimIdempotent(written.identityBy);
    TrimIsTight(written.identityBy);
    LowerBlank(Trim(written.identityBy));
    hide Trim, Lower;
  }

  /** The limit that applies is that of the rule, if it has one, and otherwise that of the global rule. */
  ghost predicate LimitFrom(
    written: PolicyValue, rule: Option<PolicyRule>, env: Env, limit: Option<RateLimitDecision>)
  {
    if rule.Some? && rule.value.rateLimit.Some? then Limits(rule.value.rateLimit.value, env, limit)
    else if written.global.Some? && written.global.value.rateLimit.Some? then
      Limits(written.global.value.rateLimit.value, env, limit)
    else limit == None
  }

  lemma RuleLimit(written: PolicyValue, rule: PolicyRule, s: Subject)
    ensures LimitFrom(written, None, s.env, GlobalLimit(NormalizePolicy(written), s))
    ensures LimitFrom(written, Some(rule), s.env,
                      LimitOf(NormalizeRule(rule), GlobalLimit(NormalizePolicy(written), s), s.env))
  {
    hide Trim, Lower, NormalizeList, NormalizeClaims, UpperTrimmed, BuildRateLimit, Limits;
    if rule.rateLimit.Some? {
      LoadedLimit(rule.rateLimit.value, s.env);
    }
    if written.global.Some? && written.global.value.rateLimit.Some? {
      LoadedLimit(written.global.value.rateLimit.value, s.env);
    }
  }

  /** An allowed request is limited as the rule that grants it says, or else as the global rule says. */
  lemma LimitAsWritten(written: PolicyValue, s: Subject)
    requires Decide(NormalizePolicy(written), s).allowed
    ensures forall i: nat :: i < |written.rules| && GrantsAt(written, s, i) ==>
      LimitFrom(written, Some(written.rules[i]), s.env, Decide(NormalizePolicy(written), s).rateLimit)
    ensures (forall i: nat :: i < |written.rules| ==> !GrantsAt(written, s, i)) ==>
      LimitFrom(written, None, s.env, Decide(NormalizePolicy(written), s).rateLimit)
  {
    hide NormalizePolicy, NormalizeRule, GrantsAt, LimitFrom, Decide, Grants;
    LoadedRules(written);
    var p := NormalizePolicy(written);
    forall i: nat | i < |written.rules|
      ensures Grants(p, s, i) <==> GrantsAt(written, s, i)
      ensures GrantsAt(written, s, i) ==> LimitFrom(written, Some(written.rules[i]), s.env, Decide(p, s).rateLimit)
    {
      LoadedGrants(written, s, i);
      if GrantsAt(written, s, i) {
        GrantedLimit(p, s, i);
        RuleLimit(written, written.rules[i], s);
      }
    }
    if forall i: nat :: i < |written.rules| ==> !GrantsAt(written, s, i) {
      UngrantedLimit(p, s);
      RuleLimit(written, PolicyRule("", PolicyMatch("", "", []), PolicyConditions([], [], [], [], None), None, ""), s);
    }
  }

  lemma GrantedLimit(p: PolicyValue, s: Subject, i: nat)
    requires i < |p.rules| && Grants(p, s, i) && Decide(p, s).allowed
    ensures Decide(p, s).rateLimit == LimitOf(p.rules[i], GlobalLimit(p, s), s.env)
  {
    var k := FirstDecidingAt(p, p.rules, s);
    hide Matches, Satisfied, Denies, LimitOf, Dedupe, GlobalPasses, Failure;
    assert Decides(p, p.rules[i], s);
    assert k == i;
  }

  lemma NoneGranted(p: PolicyValue, s: Subject)
    requires Decide(p, s).allowed && forall i: nat :: i < |p.rules| ==> !Grants(p, s, i)
    ensures FirstDeciding(p, p.rules, s) == None
  {
    var k := FirstDecidingAt(p, p.rules, s);
    hide Matches, Satisfied, Denies, LimitOf, Dedupe, GlobalPasses, Failure;
    assert k < |p.rules| ==> !Grants(p, s, k);
  }

  lemma UngrantedLimit(p: PolicyValue, s: Subject)
    requires Decide(p, s).allowed && forall i: nat :: i < |p.rules| ==> !Grants(p, s, i)
    ensures Decide(p, s).rateLimit == GlobalLimit(p, s)
  {
    var k := FirstDecidingAt(p, p.rules, s);
    hide Matches, Satisfied, Denies, LimitOf, Dedupe, GlobalPasses, Failure;
    assert k < |p.rules| ==> !Grants(p, s, k);
  }
}
