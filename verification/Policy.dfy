/**
 The policy engine: which rules match a request, which of them decide it, and what the decision is. The rule
 scan of `Evaluate` is proved against a declarative reading of the rule list.
 */
module Policy {
  import opened Text
  import opened StringLists
  import opened Conditions

  const DEFAULT_ACTION := "allow"
  const DEFAULT_WINDOW: int := 60_000_000_000
  const DEFAULT_IDENTITY := "sub"
  const OK: int := 200
  const FORBIDDEN: int := 403

  datatype PolicyMatch = PolicyMatch(path: string, pathPrefix: string, methods: seq<string>)

  /** `claims` lists the entries of the map in the order in which one call ranges over them. */
  datatype PolicyConditions = PolicyConditions(
    requiredScopes: seq<string>,
    tokenSubjects: seq<string>,
    certSubjects: seq<string>,
    claims: seq<(string, seq<string>)>,
    constraint: Option<Condition>)

  datatype PolicyRateLimit = PolicyRateLimit(enabled: bool, maxRequests: int, window: string, identityBy: string)

  datatype PolicyRule = PolicyRule(
    name: string, match_: PolicyMatch, conditions: PolicyConditions, rateLimit: Option<PolicyRateLimit>, action: string)

  /** The contents of a policy. */
  datatype PolicyValue = PolicyValue(defaultAction: string, global: Option<PolicyRule>, rules: seq<PolicyRule>)

  datatype RateLimitDecision = RateLimitDecision(maxRequests: int, window: int, identityBy: string)

  datatype Denial =
    | NoDenial
    | MissingClaims
    | TokenSubject
    | CertSubject
    | ClaimMismatch(key: string)
    | Constraint(reason: Reason)
    | ByRule(name: string)
    | ByDefault

  datatype PolicyDecision = PolicyDecision(
    allowed: bool, status: int, reason: Denial, requiredScopes: seq<string>, rateLimit: Option<RateLimitDecision>)

  /** What is judged: the request with its method and path normalised, and who sends it. */
  datatype Subject = Subject(
    method_: string, path: string, claims: Option<TokenClaims>, identity: Option<ClientIdentity>, env: Env)

  // ---------- one rule ----------

  predicate HasMethod(methods: seq<string>, m: string) {
    exists i :: 0 <= i < |methods| && EqualFold(Trim(methods[i]), Trim(m))
  }

  /** `policyRuleMatches` */
  predicate Matches(rule: PolicyRule, s: Subject) {
    && (rule.match_.path != "" ==> NormalizePolicyPath(rule.match_.path) == s.path)
    && (rule.match_.pathPrefix != "" ==> NormalizePolicyPath(rule.match_.pathPrefix) <= s.path)
    && (rule.match_.methods != [] ==> HasMethod(rule.match_.methods, s.method_))
  }

  /** `tokenClaimValues` */
  function TokenClaimValues(claims: TokenClaims, claim: string): seq<string> {
    var key := Lower(Trim(claim));
    if key == "sub" then NormalizeList([claims.subject])
    else if key == "iss" then NormalizeList([claims.issuer])
    else if key == "aud" then NormalizeList(claims.audience)
    else if key == "jti" then NormalizeList([claims.jwtId])
    else ExtractClaimValues(claims.raw, Split(key, '.'))
  }

  predicate ClaimAllowed(claims: TokenClaims, claim: string, allowed: seq<string>) {
    var actual := TokenClaimValues(claims, claim);
    exists i :: 0 <= i < |actual| && InList(actual[i], allowed)
  }

  /** The first claim, in range order, that has allowed values and none of them. */
  function ClaimDenial(claims: TokenClaims, wanted: seq<(string, seq<string>)>): Denial {
    if wanted == [] then NoDenial
    else if wanted[0].1 != [] && !ClaimAllowed(claims, wanted[0].0, wanted[0].1) then ClaimMismatch(wanted[0].0)
    else ClaimDenial(claims, wanted[1..])
  }

  const NO_IDENTITY := ClientIdentity("", "", "", [])
  const NO_REQUEST := PolicyRequest("", "")

  /** `policyRuleSatisfied`: why the conditions of a rule fail, or `NoDenial`. Constraints see an empty request. */
  function Failure(rule: PolicyRule, s: Subject): Denial {
    if s.claims.None? then MissingClaims
    else
      var claims := s.claims.value;
      var identity := if s.identity.Some? then s.identity.value else NO_IDENTITY;
      if rule.conditions.tokenSubjects != [] && !InList(Trim(claims.subject), rule.conditions.tokenSubjects) then
        TokenSubject
      else if rule.conditions.certSubjects != [] && !InList(Trim(identity.subject), rule.conditions.certSubjects) then
        CertSubject
      else if ClaimDenial(claims, rule.conditions.claims) != NoDenial then
        ClaimDenial(claims, rule.conditions.claims)
      else if rule.conditions.constraint.Some? then
        ConstraintDenial(rule.conditions.constraint.value, claims, identity, s.env)
      else NoDenial
  }

  function ConstraintDenial(c: Condition, claims: TokenClaims, identity: ClientIdentity, env: Env): Denial {
    match Evaluate(c, fact => ResolveFact(fact, Some(claims), Some(identity), NO_REQUEST, env), env)
    case Holds => NoDenial
    case Fails(reason) => Constraint(reason)
  }

  predicate Satisfied(rule: PolicyRule, s: Subject) {
    Failure(rule, s) == NoDenial
  }

  /** `buildRateLimitDecision` */
  function BuildRateLimit(raw: PolicyRateLimit, env: Env): Option<RateLimitDecision> {
    if !raw.enabled || raw.maxRequests <= 0 then None
    else
      var parsed := if raw.window == "" then None else env.parseDuration(Trim(raw.window));
      var window := if parsed.Some? && parsed.value > 0 then parsed.value else DEFAULT_WINDOW;
      var identityBy := Trim(raw.identityBy);
      Some(RateLimitDecision(raw.maxRequests, window, if identityBy == "" then DEFAULT_IDENTITY else identityBy))
  }

  // ---------- the declarative reading ----------

  /** `NewAllowPolicy` */
  function AllowPolicy(): PolicyValue {
    PolicyValue(DEFAULT_ACTION, None, [])
  }

  function DefaultOf(p: PolicyValue): string {
    if p.defaultAction == "" then DEFAULT_ACTION else p.defaultAction
  }

  function ActionOf(p: PolicyValue, rule: PolicyRule): string {
    if IsBlank(rule.action) then DefaultOf(p) else rule.action
  }

  predicate Denies(p: PolicyValue, rule: PolicyRule) {
    ActionOf(p, rule) == "deny"
  }

  /** A matching rule decides when its conditions hold, or when it denies whether they hold or not. */
  predicate Decides(p: PolicyValue, rule: PolicyRule, s: Subject) {
    Matches(rule, s) && (Satisfied(rule, s) || Denies(p, rule))
  }

  function FirstDeciding(p: PolicyValue, rules: seq<PolicyRule>, s: Subject): Option<PolicyRule> {
    if rules == [] then None
    else if Decides(p, rules[0], s) then Some(rules[0])
    else FirstDeciding(p, rules[1..], s)
  }

  function LastMatching(rules: seq<PolicyRule>, s: Subject): Option<PolicyRule> {
    if rules == [] then None
    else if Matches(rules[|rules| - 1], s) then Some(rules[|rules| - 1])
    else LastMatching(rules[..|rules| - 1], s)
  }

  function Denied(reason: Denial): PolicyDecision {
    PolicyDecision(false, FORBIDDEN, reason, [], None)
  }

  function Granted(scopes: seq<string>, limit: Option<RateLimitDecision>): PolicyDecision {
    PolicyDecision(true, OK, NoDenial, scopes, limit)
  }

  function LimitOf(rule: PolicyRule, otherwise: Option<RateLimitDecision>, env: Env): Option<RateLimitDecision> {
    if rule.rateLimit.Some? then BuildRateLimit(rule.rateLimit.value, env) else otherwise
  }

  /** The global rule is judged under the default action, whatever its own says. */
  predicate GlobalPasses(p: PolicyValue, s: Subject) {
    p.global.Some? ==> Satisfied(p.global.value, s) && DefaultOf(p) != "deny"
  }

  function GlobalDenial(p: PolicyValue, global: PolicyRule, s: Subject): PolicyDecision {
    if Satisfied(global, s) then Denied(ByRule(global.name)).(rateLimit := LimitOf(global, None, s.env))
    else Denied(Failure(global, s))
  }

  function GlobalScopes(p: PolicyValue): seq<string> {
    if p.global.Some? then p.global.value.conditions.requiredScopes else []
  }

  function GlobalLimit(p: PolicyValue, s: Subject): Option<RateLimitDecision> {
    if p.global.Some? then LimitOf(p.global.value, None, s.env) else None
  }

  /** The decision of the rule that decides. */
  function RuleDecision(p: PolicyValue, rule: PolicyRule, s: Subject): PolicyDecision {
    var limit := LimitOf(rule, GlobalLimit(p, s), s.env);
    if !Satisfied(rule, s) then
      Denied(Failure(rule, s)).(requiredScopes := Dedupe(GlobalScopes(p)))
    else if Denies(p, rule) then
      Denied(ByRule(rule.name)).(
        requiredScopes := Dedupe(GlobalScopes(p) + rule.conditions.requiredScopes), rateLimit := limit)
    else
      Granted(Dedupe(GlobalScopes(p) + rule.conditions.requiredScopes), limit)
  }

  /** When no rule decides: the last matching rule is the reason, and with no matching rule the default action is. */
  function Undecided(p: PolicyValue, s: Subject): PolicyDecision {
    match LastMatching(p.rules, s)
    case Some(rule) => Denied(Failure(rule, s)).(requiredScopes := Dedupe(GlobalScopes(p)))
    case None =>
      if DefaultOf(p) == "deny" then
        Denied(ByDefault).(requiredScopes := Dedupe(GlobalScopes(p)), rateLimit := GlobalLimit(p, s))
      else
        Granted(Dedupe(GlobalScopes(p)), GlobalLimit(p, s))
  }

  function Decide(p: PolicyValue, s: Subject): PolicyDecision {
    if !GlobalPasses(p, s) then GlobalDenial(p, p.global.value, s)
    else
      match FirstDeciding(p, p.rules, s)
      case Some(rule) => RuleDecision(p, rule, s)
      case None => Undecided(p, s)
  }

  // ---------- the engine ----------

  class PolicyConfig {
    var defaultAction: string
    var global: Option<PolicyRule>
    var rules: seq<PolicyRule>

    constructor (p: PolicyValue)
      ensures Contents() == p
    {
      defaultAction, global, rules := p.defaultAction, p.global, p.rules;
    }

    function Contents(): PolicyValue
      reads this
    {
      PolicyValue(defaultAction, global, rules)
    }

    /** `normalize`, which a policy undergoes once, when it is loaded. */
    method Normalize()
      modifies this
      ensures Contents() == NormalizePolicy(old(Contents()))
    {
      hide NormalizeRule;
      if Trim(defaultAction) == "" {
        defaultAction := DEFAULT_ACTION;
      }
      defaultAction := Lower(Trim(defaultAction));
      if global.Some? {
        var g := NormalizeRuleValue(global.value);
        global := Some(g);
      }
      var i := 0;
      while i < |rules|
        invariant 0 <= i <= |rules| == |old(rules)|
        invariant defaultAction == NormalizeAction(old(defaultAction)) && global == NormalizeGlobal(old(global))
        invariant forall k :: 0 <= k < |rules| ==>
          rules[k] == if k < i then NormalizeRule(old(rules)[k]) else old(rules)[k]
      {
        var r := NormalizeRuleValue(rules[i]);
        rules := rules[i := r];
        i := i + 1;
      }
    }

    static method NormalizeRuleValue(rule: PolicyRule) returns (r: PolicyRule)
      ensures r == NormalizeRule(rule)
    {
      var scopes := rule.conditions.requiredScopes;
      var subjects, certs := rule.conditions.tokenSubjects, rule.conditions.certSubjects;
      if |scopes| > 0 {
        scopes := NormalizeStrings(scopes);
      }
      if |subjects| > 0 {
        subjects := NormalizeStrings(subjects);
      }
      if |certs| > 0 {
        certs := NormalizeStrings(certs);
      }
      var methods := rule.match_.methods;
      var i := 0;
      while i < |methods|
        invariant 0 <= i <= |methods| == |rule.match_.methods|
        invariant forall k :: 0 <= k < |methods| ==>
          methods[k] == if k < i then Upper(Trim(rule.match_.methods[k])) else rule.match_.methods[k]
      {
        methods := methods[i := Upper(Trim(methods[i]))];
        i := i + 1;
      }
      assert methods == UpperTrimmed(rule.match_.methods);
      if |methods| > 0 {
        methods := NormalizeStrings(methods);
      }
      var claims := NormalizeClaimMap(rule.conditions.claims);
      r := PolicyRule(
        Trim(rule.name),
        PolicyMatch(Trim(rule.match_.path), Trim(rule.match_.pathPrefix), methods),
        PolicyConditions(scopes, subjects, certs, claims, rule.conditions.constraint),
        NormalizeLimit(rule.rateLimit),
        Lower(Trim(rule.action)));
    }

    /** The claim map with normalised keys, built entry by entry; blank keys are dropped and later keys win. */
    static method NormalizeClaimMap(claims: seq<(string, seq<string>)>) returns (out: seq<(string, seq<string>)>)
      ensures out == NormalizeClaims(claims)
    {
      hide NormalizeClaims, Lower, Trim, NormalizeList, Put;
      out := [];
      var i := 0;
      NormalizeClaimsNone(claims);
      while i < |claims|
        invariant 0 <= i <= |claims| && out == NormalizeClaims(claims[..i])
      {
        NormalizeClaimsNext(claims, i);
        var key := Lower(Trim(claims[i].0));
        if key != "" {
          var values := NormalizeStrings(claims[i].1);
          out := Put(out, key, values);
        }
        i := i + 1;
      }
      assert claims[..i] == claims;
    }

    /** `allMatchingRules` */
    method AllMatchingRules(s: Subject) returns (matching: seq<PolicyRule>)
      ensures matching == Matching(rules, s)
    {
      hide Matching, Matches;
      matching := [];
      var i := 0;
      MatchingNone(rules, s);
      while i < |rules|
        invariant 0 <= i <= |rules| && matching == Matching(rules[..i], s)
      {
        MatchingNext(rules, s, i);
        if Matches(rules[i], s) {
          matching := matching + [rules[i]];
        }
        i := i + 1;
      }
      assert rules[..i] == rules;
    }

    /** `Evaluate`, which changes nothing and decides as the declarative reading says. */
    method Evaluate(m: string, path: string, claims: Option<TokenClaims>, identity: Option<ClientIdentity>, env: Env)
      returns (decision: PolicyDecision)
      ensures decision == Decide(Contents(), Subject(Upper(Trim(m)), NormalizePolicyPath(path), claims, identity, env))
    {
      var s := Subject(Upper(Trim(m)), NormalizePolicyPath(path), claims, identity, env);
      decision := Granted([], None);
      var action := if defaultAction == "" then DEFAULT_ACTION else defaultAction;
      var matching := AllMatchingRules(s);
      var scopes: seq<string> := [];
      var ok := true;
      if global.Some? {
        ok, decision, scopes := ApplyPolicyRule(action, global.value, s, decision, scopes);
        if !ok {
          return;
        }
      }
      decision := Scan(action, matching, s, decision, scopes);
    }

    /** The loop over the matching rules, with its fallback for rules that fail their conditions. */
    method Scan(action: string, matching: seq<PolicyRule>, s: Subject, base: PolicyDecision, baseScopes: seq<string>)
      returns (decision: PolicyDecision)
      requires action == DefaultOf(Contents()) && GlobalPasses(Contents(), s) && matching == Matching(rules, s)
      requires base == Granted([], GlobalLimit(Contents(), s)) && baseScopes == GlobalScopes(Contents())
      ensures decision == Decide(Contents(), s)
    {
      ghost var p := Contents();
      decision := base;
      var scopes := baseScopes;
      var fallback: Option<PolicyDecision> := None;
      var applied := false;
      ghost var chosen: Option<PolicyRule> := None;
      var i := 0;
      while i < |matching| && !applied
        invariant 0 <= i <= |matching|
        invariant !applied ==>
          && decision == base && scopes == baseScopes
          && FirstDeciding(p, matching, s) == FirstDeciding(p, matching[i..], s)
          && fallback == (if i == 0 then None else Some(Denied(Failure(matching[i - 1], s))))
        invariant applied ==>
          && chosen.Some? && FirstDeciding(p, matching, s) == chosen
          && decision.(requiredScopes := Dedupe(scopes)) == RuleDecision(p, chosen.value, s)
        decreases |matching| - i, !applied
      {
        var rule := matching[i];
        assert rule in matching && matching[i..][0] == rule && matching[i..][1..] == matching[i + 1..];
        MatchingMatch(rules, s, rule);
        var ruleAction := if Trim(rule.action) != "" then rule.action else action;
        var ok, localDecision, localScopes := ApplyPolicyRule(ruleAction, rule, s, decision, scopes);
        if ok {
          decision, scopes, applied := localDecision, localScopes, true;
          chosen := Some(rule);
        } else if !localDecision.allowed {
          if ruleAction == "deny" {
            decision, scopes, applied := localDecision, localScopes, true;
            chosen := Some(rule);
          } else {
            fallback := Some(localDecision);
          }
        }
        i := i + 1;
      }
      MatchingKeeps(p, rules, s);
      if !applied {
        if fallback.Some? {
          decision := fallback.value;
        } else if action == "deny" {
          decision := decision.(allowed := false, status := FORBIDDEN, reason := ByDefault);
        }
      }
      decision := WithScopes(decision, scopes);
    }

    static method WithScopes(decision: PolicyDecision, scopes: seq<string>) returns (d: PolicyDecision)
      ensures d == decision.(requiredScopes := Dedupe(scopes))
    {
      var list := new string[|scopes|](k requires 0 <= k < |scopes| => scopes[k]);
      assert list[..] == scopes;
      var n := DedupeList(list);
      d := decision.(requiredScopes := list[..n]);
    }

    /** `applyPolicyRule`; the decision and the scopes it writes through pointers are results here. */
    method ApplyPolicyRule(action: string, rule: PolicyRule, s: Subject, decision: PolicyDecision, scopes: seq<string>)
      returns (ok: bool, decision': PolicyDecision, scopes': seq<string>)
      ensures ok <==> Satisfied(rule, s) && action != "deny"
      ensures Satisfied(rule, s) ==> scopes' == scopes + rule.conditions.requiredScopes
      ensures !Satisfied(rule, s) ==> scopes' == scopes && decision' == Denied(Failure(rule, s))
      ensures ok ==> decision' == decision.(rateLimit := LimitOf(rule, decision.rateLimit, s.env))
      ensures Satisfied(rule, s) && action == "deny" ==>
        decision' == Denied(ByRule(rule.name)).(rateLimit := LimitOf(rule, decision.rateLimit, s.env))
    {
      decision', scopes' := decision, scopes;
      var reason := Failure(rule, s);
      if reason != NoDenial {
        decision' := PolicyDecision(false, FORBIDDEN, reason, [], None);
        return false, decision', scopes';
      }
      scopes' := scopes' + rule.conditions.requiredScopes;
      if rule.rateLimit.Some? {
        decision' := decision'.(rateLimit := BuildRateLimit(rule.rateLimit.value, s.env));
      }
      if action == "deny" {
        decision' := PolicyDecision(false, FORBIDDEN, ByRule(rule.name), [], decision'.rateLimit);
        return false, decision', scopes';
      }
      ok := true;
    }
  }

  // ---------- the matching rules ----------

  function Matching(rules: seq<PolicyRule>, s: Subject): seq<PolicyRule> {
    if rules == [] then []
    else
      var rest := Matching(rules[..|rules| - 1], s);
      if Matches(rules[|rules| - 1], s) then rest + [rules[|rules| - 1]] else rest
  }

  lemma MatchingNone(rules: seq<PolicyRule>, s: Subject)
    ensures Matching(rules[..0], s) == []
  {}

  lemma MatchingNext(rules: seq<PolicyRule>, s: Subject, i: nat)
    requires i < |rules|
    ensures Matching(rules[..i + 1], s) == Matching(rules[..i], s) + if Matches(rules[i], s) then [rules[i]] else []
  {
    hide Matches;
    assert rules[..i + 1][..i] == rules[..i];
  }

  lemma {:induction false} MatchingMatch(rules: seq<PolicyRule>, s: Subject, rule: PolicyRule)
    requires rule in Matching(rules, s)
    ensures Matches(rule, s)
  {
    if !Matches(rules[|rules| - 1], s) || rule != rules[|rules| - 1] {
      MatchingMatch(rules[..|rules| - 1], s, rule);
    }
  }

  lemma {:induction false} FirstDecidingAppend(p: PolicyValue, a: seq<PolicyRule>, b: seq<PolicyRule>, s: Subject)
    ensures FirstDeciding(p, a + b, s) ==
      if FirstDeciding(p, a, s).Some? then FirstDeciding(p, a, s) else FirstDeciding(p, b, s)
  {
    if a == [] {
      assert a + b == b;
    } else {
      assert (a + b)[1..] == a[1..] + b;
      FirstDecidingAppend(p, a[1..], b, s);
    }
  }

  /** Dropping the rules that do not match changes neither the deciding nor the last matching rule. */
  lemma {:induction false} MatchingKeeps(p: PolicyValue, rules: seq<PolicyRule>, s: Subject)
    ensures FirstDeciding(p, Matching(rules, s), s) == FirstDeciding(p, rules, s)
    ensures LastMatching(rules, s) ==
      if Matching(rules, s) == [] then None else Some(Matching(rules, s)[|Matching(rules, s)| - 1])
  {
    hide Matches, Decides;
    if rules != [] {
      var init, last := rules[..|rules| - 1], rules[|rules| - 1];
      MatchingKeeps(p, init, s);
      assert rules == init + [last];
      OneRule(p, last, s);
      FirstDecidingAppend(p, init, [last], s);
      FirstDecidingAppend(p, Matching(init, s), [last], s);
    }
  }

  lemma OneRule(p: PolicyValue, rule: PolicyRule, s: Subject)
    ensures FirstDeciding(p, [rule], s) == if Decides(p, rule, s) then Some(rule) else None
    ensures Decides(p, rule, s) ==> Matches(rule, s)
  {
    assert [rule][1..] == [];
  }

  // ---------- what the decision means ----------

  lemma {:induction false} FirstDecidingAt(p: PolicyValue, rules: seq<PolicyRule>, s: Subject) returns (i: nat)
    ensures i <= |rules| && forall j :: 0 <= j < i ==> !Decides(p, rules[j], s)
    ensures i == |rules| ==> FirstDeciding(p, rules, s) == None
    ensures i < |rules| ==> Decides(p, rules[i], s) && FirstDeciding(p, rules, s) == Some(rules[i])
  {
    if rules == [] {
      i := 0;
    } else if Decides(p, rules[0], s) {
      i := 0;
    } else {
      var k := FirstDecidingAt(p, rules[1..], s);
      i := k + 1;
      assert forall j :: 1 <= j < i ==> rules[j] == rules[1..][j - 1];
    }
  }

  lemma {:induction false} LastMatchingNone(rules: seq<PolicyRule>, s: Subject)
    ensures LastMatching(rules, s).None? <==> forall i :: 0 <= i < |rules| ==> !Matches(rules[i], s)
    ensures LastMatching(rules, s).Some? ==>
      LastMatching(rules, s).value in rules && Matches(LastMatching(rules, s).value, s)
  {
    if rules != [] {
      LastMatchingNone(rules[..|rules| - 1], s);
      assert forall i :: 0 <= i < |rules| - 1 ==> rules[i] == rules[..|rules| - 1][i];
    }
  }

  /** Rule `i` grants: it matches, is satisfied and does not deny, and no earlier rule decides. */
  predicate Grants(p: PolicyValue, s: Subject, i: nat)
    requires i < |p.rules|
  {
    && Matches(p.rules[i], s) && Satisfied(p.rules[i], s) && !Denies(p, p.rules[i])
    && forall j :: 0 <= j < i ==> !Decides(p, p.rules[j], s)
  }

  /**
   A request is allowed exactly when the global rule passes, and either some rule grants it or no rule matches
   and the default is not deny. The status is 200 for an allowed request and 403 for any other.
   */
  lemma AllowedIff(p: PolicyValue, s: Subject)
    ensures Decide(p, s).allowed <==>
      && GlobalPasses(p, s)
      && ((exists i :: 0 <= i < |p.rules| && Grants(p, s, i))
          || ((forall i :: 0 <= i < |p.rules| ==> !Matches(p.rules[i], s)) && DefaultOf(p) != "deny"))
    ensures Decide(p, s).status == if Decide(p, s).allowed then OK else FORBIDDEN
  {
    hide Matches, Satisfied, Denies, DefaultOf, Failure, GlobalPasses, LimitOf, Dedupe;
    var i := FirstDecidingAt(p, p.rules, s);
    LastMatchingNone(p.rules, s);
    assert forall k :: 0 <= k < |p.rules| && Grants(p, s, k) ==> Decides(p, p.rules[k], s);
    if i < |p.rules| {
      if Satisfied(p.rules[i], s) && !Denies(p, p.rules[i]) {
        assert Grants(p, s, i);
      }
      assert forall k :: i < k < |p.rules| && Decides(p, p.rules[i], s) ==> !Grants(p, s, k);
    }
  }

  /** A deny rule that is reached denies, whether its conditions hold or not, and whatever the rules after it grant. */
  lemma DenyRuleDenies(p: PolicyValue, s: Subject, i: nat)
    requires i < |p.rules| && Matches(p.rules[i], s) && Denies(p, p.rules[i])
    requires forall j :: 0 <= j < i ==> !Decides(p, p.rules[j], s)
    ensures !Decide(p, s).allowed
  {
    hide Matches, Satisfied, Denies, Decide, DefaultOf, GlobalPasses;
    AllowedIff(p, s);
    assert Decides(p, p.rules[i], s);
    forall k | 0 <= k < |p.rules| ensures !Grants(p, s, k) {
      assert k > i ==> Decides(p, p.rules[i], s);
    }
  }

  lemma {:induction false} LastMatchingAt(rules: seq<PolicyRule>, s: Subject, i: nat)
    requires i < |rules| && Matches(rules[i], s) && forall k :: i < k < |rules| ==> !Matches(rules[k], s)
    ensures LastMatching(rules, s) == Some(rules[i])
  {
    hide Matches;
    if i < |rules| - 1 {
      LastMatchingAt(rules[..|rules| - 1], s, i);
    }
  }

  /**
   When rules match but none decides, the request is denied with the failure of the last matching rule, even
   under a default action that allows.
   */
  lemma UndecidedIsDenied(p: PolicyValue, s: Subject, i: nat)
    requires GlobalPasses(p, s) && i < |p.rules| && Matches(p.rules[i], s)
    requires forall k :: i < k < |p.rules| ==> !Matches(p.rules[k], s)
    requires forall k :: 0 <= k < |p.rules| ==> !Decides(p, p.rules[k], s)
    ensures !Decide(p, s).allowed && Decide(p, s).reason == Failure(p.rules[i], s) != NoDenial
  {
    var k := FirstDecidingAt(p, p.rules, s);
    LastMatchingAt(p.rules, s, i);
    assert !Decides(p, p.rules[i], s);
    hide Matches, Denies, Failure, GlobalPasses, LimitOf, Dedupe, DefaultOf;
  }

  /**
   Rejected rules leave no residue: around a deciding rule, the rules before it that do not decide and all the
   rules after it can be deleted or replaced without any effect on the decision.
   */
  lemma NoResidue(
    p: PolicyValue, s: Subject, before: seq<PolicyRule>, rule: PolicyRule, after: seq<PolicyRule>,
    before': seq<PolicyRule>, after': seq<PolicyRule>)
    requires Decides(p, rule, s)
    requires forall r :: r in before ==> !Decides(p, r, s)
    requires forall r :: r in before' ==> !Decides(p, r, s)
    ensures Decide(p.(rules := before + [rule] + after), s) == Decide(p.(rules := before' + [rule] + after'), s)
    ensures Decide(p.(rules := before + [rule] + after), s) == Decide(p.(rules := [rule]), s)
  {
    DecidedBy(p, s, before, rule, after);
    DecidedBy(p, s, before', rule, after');
    DecidedBy(p, s, [], rule, []);
    assert [] + [rule] + [] == [rule];
  }

  lemma DecidedBy(p: PolicyValue, s: Subject, before: seq<PolicyRule>, rule: PolicyRule, after: seq<PolicyRule>)
    requires Decides(p, rule, s) && forall r :: r in before ==> !Decides(p, r, s)
    ensures Decide(p.(rules := before + [rule] + after), s) ==
      if GlobalPasses(p, s) then RuleDecision(p, rule, s) else GlobalDenial(p, p.global.value, s)
  {
    var q := p.(rules := before + [rule] + after);
    NoneDecides(q, p, before, s);
    FirstDecidingAppend(q, before + [rule], after, s);
    FirstDecidingAppend(q, before, [rule], s);
  }

  /** Whether a rule decides depends on the default action only, not on the other rules. */
  lemma {:induction false} NoneDecides(q: PolicyValue, p: PolicyValue, before: seq<PolicyRule>, s: Subject)
    requires q.defaultAction == p.defaultAction && forall r :: r in before ==> !Decides(p, r, s)
    ensures FirstDeciding(q, before, s) == None
  {
    if before != [] {
      assert before[0] in before;
      NoneDecides(q, p, before[1..], s);
    }
  }

  // ---------- loading ----------

  function NormalizeAction(action: string): string {
    if IsBlank(action) then Lower(Trim(DEFAULT_ACTION)) else Lower(Trim(action))
  }

  function NormalizeGlobal(rule: Option<PolicyRule>): Option<PolicyRule> {
    if rule.None? then None else Some(NormalizeRule(rule.value))
  }

  function NormalizeLimit(limit: Option<PolicyRateLimit>): Option<PolicyRateLimit> {
    if limit.None? then None else Some(limit.value.(identityBy := Lower(Trim(limit.value.identityBy))))
  }

  function UpperTrimmed(methods: seq<string>): seq<string> {
    seq(|methods|, i requires 0 <= i < |methods| => Upper(Trim(methods[i])))
  }

  function NormalizeRule(rule: PolicyRule): PolicyRule {
    PolicyRule(
      Trim(rule.name),
      PolicyMatch(
        Trim(rule.match_.path), Trim(rule.match_.pathPrefix), NormalizeList(UpperTrimmed(rule.match_.methods))),
      PolicyConditions(
        NormalizeList(rule.conditions.requiredScopes),
        NormalizeList(rule.conditions.tokenSubjects),
        NormalizeList(rule.conditions.certSubjects),
        NormalizeClaims(rule.conditions.claims),
        rule.conditions.constraint),
      NormalizeLimit(rule.rateLimit),
      Lower(Trim(rule.action)))
  }

  function NormalizePolicy(p: PolicyValue): PolicyValue {
    PolicyValue(
      NormalizeAction(p.defaultAction),
      NormalizeGlobal(p.global),
      seq(|p.rules|, i requires 0 <= i < |p.rules| => NormalizeRule(p.rules[i])))
  }

  /** Assignment to a map that is kept as a list of entries. */
  function Put<V>(entries: seq<(string, V)>, key: string, v: V): seq<(string, V)> {
    if entries == [] then [(key, v)]
    else if entries[0].0 == key then [(key, v)] + entries[1..]
    else [entries[0]] + Put(entries[1..], key, v)
  }

  function NormalizeClaims(claims: seq<(string, seq<string>)>): seq<(string, seq<string>)> {
    if claims == [] then []
    else
      var rest, last := NormalizeClaims(claims[..|claims| - 1]), claims[|claims| - 1];
      var key := Lower(Trim(last.0));
      if key == "" then rest else Put(rest, key, NormalizeList(last.1))
  }

  lemma NormalizeClaimsNone(claims: seq<(string, seq<string>)>)
    ensures NormalizeClaims(claims[..0]) == []
  {}

  lemma NormalizeClaimsNext(claims: seq<(string, seq<string>)>, i: nat)
    requires i < |claims|
    ensures var key, before := Lower(Trim(claims[i].0)), NormalizeClaims(claims[..i]);
      NormalizeClaims(claims[..i + 1]) == if key == "" then before else Put(before, key, NormalizeList(claims[i].1))
  {
    hide Lower, Trim, NormalizeList;
    assert claims[..i + 1][..i] == claims[..i];
  }

  lemma LowerTrimIdempotent(s: string)
    ensures Lower(Trim(Lower(Trim(s)))) == Lower(Trim(s)) && Trim(Lower(Trim(s))) == Lower(Trim(s))
    ensures Upper(Trim(Upper(Trim(s)))) == Upper(Trim(s)) && Trim(Upper(Trim(s))) == Upper(Trim(s))
  {
    TrimIsTight(s);
    CaseKeepsTrimmed(Trim(s));
    CaseIsIdempotent(Trim(s));
  }

  predicate NormalEntry(e: (string, seq<string>)) {
    e.0 != "" && Lower(Trim(e.0)) == e.0 && NormalizeList(e.1) == e.1
  }

  predicate HasKey<V>(entries: seq<(string, V)>, key: string) {
    exists i :: 0 <= i < |entries| && entries[i].0 == key
  }

  predicate DistinctKeys<V>(entries: seq<(string, V)>) {
    forall i, j :: 0 <= i < j < |entries| ==> entries[i].0 != entries[j].0
  }

  /** Looking a key up after an assignment finds the new value, and other keys keep theirs. */
  lemma {:induction false} PutEntries<V>(entries: seq<(string, V)>, key: string, v: V, e: (string, V))
    requires DistinctKeys(entries)
    ensures DistinctKeys(Put(entries, key, v))
    ensures e in Put(entries, key, v) <==> e == (key, v) || (e in entries && e.0 != key)
    ensures forall k :: HasKey(Put(entries, key, v), k) ==> k == key || HasKey(entries, k)
  {
    if entries != [] {
      assert entries == [entries[0]] + entries[1..];
      PutEntries(entries[1..], key, v, e);
      assert HasKey(entries[1..], entries[0].0) ==> false;
      if entries[0].0 != key {
        var rest := Put(entries[1..], key, v);
        assert !HasKey(rest, entries[0].0);
        forall k | HasKey([entries[0]] + rest, k) ensures k == key || HasKey(entries, k) {
          var i :| 0 <= i <= |rest| && ([entries[0]] + rest)[i].0 == k;
          if i == 0 {
            assert entries[0].0 == k;
          } else {
            assert rest[i - 1].0 == k;
            assert HasKey(rest, k);
          }
        }
      }
    }
  }

  lemma {:induction false} PutNew<V>(entries: seq<(string, V)>, key: string, v: V)
    requires !HasKey(entries, key)
    ensures Put(entries, key, v) == entries + [(key, v)]
  {
    if entries != [] {
      assert entries[0].0 != key;
      assert !HasKey(entries[1..], key) by {
        assert forall i :: 0 <= i < |entries| - 1 ==> entries[1..][i] == entries[i + 1];
      }
      PutNew(entries[1..], key, v);
    }
  }

  /** Entry `i` is the last that normalises to its key. */
  predicate LastOfKey(claims: seq<(string, seq<string>)>, i: nat, key: string)
    requires i < |claims|
  {
    Lower(Trim(claims[i].0)) == key && forall j :: i < j < |claims| ==> Lower(Trim(claims[j].0)) != key
  }

  /** What an entry of a normalised claim map comes from. */
  predicate FromClaims(claims: seq<(string, seq<string>)>, e: (string, seq<string>)) {
    e.0 != "" && exists i :: 0 <= i < |claims| && LastOfKey(claims, i, e.0) && e.1 == NormalizeList(claims[i].1)
  }

  lemma FromClaimsLast(claims: seq<(string, seq<string>)>, e: (string, seq<string>))
    requires claims != []
    ensures var n := |claims| - 1;
      var key := Lower(Trim(claims[n].0));
      FromClaims(claims, e) <==>
        if e.0 == key then key != "" && e.1 == NormalizeList(claims[n].1) else FromClaims(claims[..n], e)
  {
    hide Lower, Trim, NormalizeList;
    var n := |claims| - 1;
    assert LastOfKey(claims, n, Lower(Trim(claims[n].0)));
    if FromClaims(claims[..n], e) && e.0 != Lower(Trim(claims[n].0)) {
      var i :| 0 <= i < n && LastOfKey(claims[..n], i, e.0) && e.1 == NormalizeList(claims[..n][i].1);
      assert LastOfKey(claims, i, e.0) && e.1 == NormalizeList(claims[i].1);
    }
    if FromClaims(claims, e) {
      var i :| 0 <= i < |claims| && LastOfKey(claims, i, e.0) && e.1 == NormalizeList(claims[i].1);
      if i < n {
        assert LastOfKey(claims[..n], i, e.0);
      }
    }
  }

  /**
   The normalised claim map has distinct keys, and its entries are those of the last configured entry for each
   non-blank key, with the values trimmed, without blanks and sorted.
   */
  lemma {:induction false} NormalizedClaims(claims: seq<(string, seq<string>)>, e: (string, seq<string>))
    ensures DistinctKeys(NormalizeClaims(claims))
    ensures e in NormalizeClaims(claims) <==> FromClaims(claims, e)
  {
    if claims != [] {
      var n := |claims| - 1;
      var key := Lower(Trim(claims[n].0));
      NormalizedClaims(claims[..n], e);
      FromClaimsLast(claims, e);
      hide Lower, Trim, NormalizeList, FromClaims;
      if key != "" {
        PutEntries(NormalizeClaims(claims[..n]), key, NormalizeList(claims[n].1), e);
      } else {
        BlankKeyGone(claims[..n], e);
      }
    }
  }

  lemma BlankKeyGone(claims: seq<(string, seq<string>)>, e: (string, seq<string>))
    ensures FromClaims(claims, e) ==> e.0 != ""
  {}

  lemma NormalizedEntries(claims: seq<(string, seq<string>)>, e: (string, seq<string>))
    requires e in NormalizeClaims(claims)
    ensures NormalEntry(e)
  {
    NormalizedClaims(claims, e);
    var i :| 0 <= i < |claims| && LastOfKey(claims, i, e.0) && e.1 == NormalizeList(claims[i].1);
    LowerTrimIdempotent(claims[i].0);
    NormalizeIdempotent(claims[i].1);
  }

  lemma {:induction false} NormalClaimsFixed(claims: seq<(string, seq<string>)>)
    requires DistinctKeys(claims) && forall e :: e in claims ==> NormalEntry(e)
    ensures NormalizeClaims(claims) == claims
  {
    if claims != [] {
      hide NormalEntry, NormalizeClaims, DistinctKeys;
      var n := |claims| - 1;
      FewerKeys(claims);
      NormalClaimsFixed(claims[..n]);
      LastFixed(claims);
    }
  }

  lemma FewerKeys<V>(entries: seq<(string, V)>)
    requires entries != [] && DistinctKeys(entries)
    ensures var init := entries[..|entries| - 1];
      DistinctKeys(init) && forall e :: e in init ==> e in entries
  {}

  lemma LastFixed(claims: seq<(string, seq<string>)>)
    requires claims != [] && DistinctKeys(claims) && NormalEntry(claims[|claims| - 1])
    requires NormalizeClaims(claims[..|claims| - 1]) == claims[..|claims| - 1]
    ensures NormalizeClaims(claims) == claims
  {
    hide Lower, Trim, NormalizeList;
    var n := |claims| - 1;
    PutNew(claims[..n], claims[n].0, claims[n].1);
    assert claims == claims[..n] + [claims[n]];
  }

  lemma NormalizeClaimsIdempotent(claims: seq<(string, seq<string>)>)
    ensures NormalizeClaims(NormalizeClaims(claims)) == NormalizeClaims(claims)
  {
    var out := NormalizeClaims(claims);
    forall e | e in out ensures NormalEntry(e) {
      NormalizedEntries(claims, e);
    }
    NormalizedClaims(claims, ("", []));
    NormalClaimsFixed(out);
  }

  lemma UpperTrimmedFixed(methods: seq<string>)
    ensures NormalizeList(UpperTrimmed(NormalizeList(UpperTrimmed(methods)))) == NormalizeList(UpperTrimmed(methods))
  {
    var out := NormalizeList(UpperTrimmed(methods));
    forall i | 0 <= i < |out| ensures Upper(Trim(out[i])) == out[i] {
      assert out[i] in out;
      SortMembers(Cleaned(UpperTrimmed(methods)), out[i]);
      CleanedMembers(UpperTrimmed(methods), out[i]);
      var k :| 0 <= k < |methods| && Trim(UpperTrimmed(methods)[k]) == out[i];
      LowerTrimIdempotent(methods[k]);
    }
    assert UpperTrimmed(out) == out;
    NormalizeIdempotent(UpperTrimmed(methods));
  }

  lemma NormalizeRuleIdempotent(rule: PolicyRule)
    ensures NormalizeRule(NormalizeRule(rule)) == NormalizeRule(rule)
  {
    TrimIsTight(rule.name);
    TrimIsTight(rule.match_.path);
    TrimIsTight(rule.match_.pathPrefix);
    LowerTrimIdempotent(rule.action);
    if rule.rateLimit.Some? {
      LowerTrimIdempotent(rule.rateLimit.value.identityBy);
    }
    UpperTrimmedFixed(rule.match_.methods);
    NormalizeIdempotent(rule.conditions.requiredScopes);
    NormalizeIdempotent(rule.conditions.tokenSubjects);
    NormalizeIdempotent(rule.conditions.certSubjects);
    NormalizeClaimsIdempotent(rule.conditions.claims);
    hide Trim, Lower, NormalizeList, NormalizeClaims, UpperTrimmed;
  }

  lemma DefaultActionFixed(action: string)
    ensures NormalizeAction(NormalizeAction(action)) == NormalizeAction(action)
    ensures NormalizeAction(action) != ""
  {
    AllowIsNormal();
    LowerTrimIdempotent(action);
    hide Trim, Lower;
    assert |Lower(Trim(action))| == |Trim(action)|;
  }

  lemma AllowIsNormal()
    ensures Trim("allow") == "allow" && Lower("allow") == "allow"
  {
    assert SpacePrefix("allow") == 0 && SpaceSuffix("allow") == 0;
    assert Lower("allow") == "allow";
  }

  /** Loading is idempotent: a normalised policy is its own normal form. */
  lemma NormalizePolicyIdempotent(p: PolicyValue)
    ensures NormalizePolicy(NormalizePolicy(p)) == NormalizePolicy(p)
  {
    DefaultActionFixed(p.defaultAction);
    if p.global.Some? {
      NormalizeRuleIdempotent(p.global.value);
    }
    forall i | 0 <= i < |p.rules| ensures NormalizeRule(NormalizeRule(p.rules[i])) == NormalizeRule(p.rules[i]) {
      NormalizeRuleIdempotent(p.rules[i]);
    }
    hide NormalizeRule, NormalizeAction;
  }

  /**
   In a loaded rule every binary-search test answers membership among the configured values, trimmed and
   without blanks: for the two subject lists, and for the values of every claim.
   */
  lemma LoadedMembership(rule: PolicyRule, y: string, e: (string, seq<string>))
    ensures InList(y, NormalizeRule(rule).conditions.tokenSubjects) <==> Configured(rule.conditions.tokenSubjects, y)
    ensures InList(y, NormalizeRule(rule).conditions.certSubjects) <==> Configured(rule.conditions.certSubjects, y)
    ensures e in NormalizeRule(rule).conditions.claims ==>
      exists i :: 0 <= i < |rule.conditions.claims| && LastOfKey(rule.conditions.claims, i, e.0)
        && (InList(y, e.1) <==> Configured(rule.conditions.claims[i].1, y))
  {
    NormalizedMembership(rule.conditions.tokenSubjects, y);
    NormalizedMembership(rule.conditions.certSubjects, y);
    NormalizedClaims(rule.conditions.claims, e);
    if FromClaims(rule.conditions.claims, e) {
      var i :| 0 <= i < |rule.conditions.claims| && LastOfKey(rule.conditions.claims, i, e.0)
        && e.1 == NormalizeList(rule.conditions.claims[i].1);
      NormalizedMembership(rule.conditions.claims[i].1, y);
    }
  }
}
