/** The scope gate: the scopes that the server, the global rule and the deciding rule require of a token. */
module Scopes {
  import opened Text
  import opened StringLists
  import opened Conditions
  import opened Policy

  datatype ScopeResult = ScopesOk | MissingScopeClaim | RequiredScopeMissing

  /** Every required scope that is not blank is among the scopes of the token, trimmed on both sides. */
  ghost predicate Covers(tokenScopes: seq<string>, required: seq<string>) {
    forall y :: Configured(required, y) ==> Configured(tokenScopes, y)
  }

  /** The distinct trimmed values of a list, blanks left out. */
  ghost predicate IsValueSet(s: set<string>, values: seq<string>) {
    forall y :: y in s <==> Configured(values, y)
  }

  lemma OneMore(s: set<string>, values: seq<string>, i: nat)
    requires i < |values| && IsValueSet(s, values[..i])
    ensures IsValueSet(if Trim(values[i]) == "" then s else s + {Trim(values[i])}, values[..i + 1])
  {
    forall y
      ensures Configured(values[..i + 1], y) <==> Configured(values[..i], y) || (y != "" && Trim(values[i]) == y)
    {
      ConfiguredLast(values[..i + 1], y);
      assert values[..i + 1][..i] == values[..i];
    }
  }

  /** `ValidateScopes`: the required scopes are put into a set, and those of the token deleted from it. */
  method ValidateScopes(tokenScopes: seq<string>, requiredScopes: seq<string>) returns (r: ScopeResult)
    ensures r.ScopesOk? <==> requiredScopes == [] || (tokenScopes != [] && Covers(tokenScopes, requiredScopes))
    ensures r.MissingScopeClaim? <==> requiredScopes != [] && tokenScopes == []
  {
    if |requiredScopes| == 0 {
      return ScopesOk;
    }
    if |tokenScopes| == 0 {
      return MissingScopeClaim;
    }
    var required: set<string> := {};
    var i := 0;
    while i < |requiredScopes|
      invariant 0 <= i <= |requiredScopes| && IsValueSet(required, requiredScopes[..i])
    {
      OneMore(required, requiredScopes, i);
      var scope := Trim(requiredScopes[i]);
      if scope != "" {
        required := required + {scope};
      }
      i := i + 1;
    }
    assert requiredScopes[..i] == requiredScopes;
    if required == {} {
      assert forall y :: !Configured(requiredScopes, y);
      return ScopesOk;
    }
    ghost var wanted, held: set<string> := required, {};
    i := 0;
    while i < |tokenScopes|
      invariant 0 <= i <= |tokenScopes| && IsValueSet(held, tokenScopes[..i]) && required == wanted - held
    {
      OneMore(held, tokenScopes, i);
      var scope := Trim(tokenScopes[i]);
      if scope != "" {
        required := required - {scope};
        held := held + {scope};
      }
      i := i + 1;
    }
    assert tokenScopes[..i] == tokenScopes;
    if required != {} {
      var y :| y in required;
      assert Configured(requiredScopes, y) && !Configured(tokenScopes, y);
      return RequiredScopeMissing;
    }
    forall y | Configured(requiredScopes, y) ensures Configured(tokenScopes, y) {
      assert y in wanted && y !in required;
    }
    return ScopesOk;
  }

  // ---------- the gate of a loaded policy ----------

  /** The scopes a policy as written asks for: those of its global rule and of the rule that decides, if any. */
  predicate Asked(written: PolicyValue, decider: Option<PolicyRule>, y: string) {
    || (written.global.Some? && Configured(written.global.value.conditions.requiredScopes, y))
    || (decider.Some? && Configured(decider.value.conditions.requiredScopes, y))
  }

  lemma ConfiguredTight(values: seq<string>, y: string)
    requires AllTight(values)
    ensures Configured(values, y) <==> y in values
  {
    if y in values {
      var i :| 0 <= i < |values| && values[i] == y;
      assert Trim(values[i]) == y;
    }
    if Configured(values, y) {
      var i :| 0 <= i < |values| && Trim(values[i]) == y;
      assert values[i] in values;
    }
  }

  lemma NormalizedScopes(values: seq<string>, y: string)
    ensures y in NormalizeList(values) <==> Configured(values, y)
    ensures AllTight(NormalizeList(values))
  {
    NormalizeIdempotent(values);
    NormalizedMembership(values, y);
    InListIsMembership(NormalizeList(values), y);
  }

  function AskedList(p: PolicyValue, decider: Option<PolicyRule>): seq<string> {
    GlobalScopes(p) + if decider.Some? then NormalizeList(decider.value.conditions.requiredScopes) else []
  }

  lemma AllowedScopes(p: PolicyValue, s: Subject)
    requires Decide(p, s).allowed
    ensures Decide(p, s).requiredScopes == Dedupe(GlobalScopes(p) +
      match FirstDeciding(p, p.rules, s) case Some(rule) => rule.conditions.requiredScopes case None => [])
  {
    hide Matches, Satisfied, Failure, LimitOf, Dedupe, FirstDeciding, LastMatching, GlobalScopes;
    assert GlobalScopes(p) + [] == GlobalScopes(p);
  }

  lemma DecisionScopeList(written: PolicyValue, s: Subject, decider: Option<PolicyRule>)
    requires Decide(NormalizePolicy(written), s).allowed
    requires FirstDeciding(NormalizePolicy(written), NormalizePolicy(written).rules, s) ==
      if decider.None? then None else Some(NormalizeRule(decider.value))
    ensures Decide(NormalizePolicy(written), s).requiredScopes == Dedupe(AskedList(NormalizePolicy(written), decider))
    ensures AllTight(Decide(NormalizePolicy(written), s).requiredScopes)
  {
    var p := NormalizePolicy(written);
    AllowedScopes(p, s);
    hide Decide, FirstDeciding, Dedupe, NormalizeList;
    DedupeIsSet(AskedList(p, decider));
    if written.global.Some? {
      NormalizedScopes(written.global.value.conditions.requiredScopes, "");
    }
    if decider.Some? {
      NormalizedScopes(decider.value.conditions.requiredScopes, "");
    }
  }

  /** The scopes of an allowing decision of a loaded policy are exactly those asked for. */
  lemma DecisionScopes(written: PolicyValue, s: Subject, decider: Option<PolicyRule>, y: string)
    requires Decide(NormalizePolicy(written), s).allowed
    requires FirstDeciding(NormalizePolicy(written), NormalizePolicy(written).rules, s) ==
      if decider.None? then None else Some(NormalizeRule(decider.value))
    ensures Configured(Decide(NormalizePolicy(written), s).requiredScopes, y) <==> Asked(written, decider, y)
  {
    DecisionScopeList(written, s, decider);
    hide Decide, FirstDeciding, Dedupe, NormalizeList;
    var asked := AskedList(NormalizePolicy(written), decider);
    DedupeIsSet(asked);
    ConfiguredTight(Dedupe(asked), y);
    if written.global.Some? {
      NormalizedScopes(written.global.value.conditions.requiredScopes, y);
    }
    if decider.Some? {
      NormalizedScopes(decider.value.conditions.requiredScopes, y);
    }
    assert Configured(Dedupe(asked), y) ==> y != "";
  }

  /**
   The gate, from the policy as it is written: an allowed request passes exactly when nothing is required, or
   the token carries scopes and every scope of the server, of the global rule and of the deciding rule that
   is not blank is among them.
   */
  lemma ScopeGate(
    server: seq<string>, written: PolicyValue, s: Subject, decider: Option<PolicyRule>, tokenScopes: seq<string>)
    requires Decide(NormalizePolicy(written), s).allowed
    requires FirstDeciding(NormalizePolicy(written), NormalizePolicy(written).rules, s) ==
      if decider.None? then None else Some(NormalizeRule(decider.value))
    ensures var required := server + Decide(NormalizePolicy(written), s).requiredScopes;
      (required == [] || (tokenScopes != [] && Covers(tokenScopes, required))) <==>
        || (server == [] && forall y :: !Asked(written, decider, y))
        || (tokenScopes != []
            && forall y :: Configured(server, y) || Asked(written, decider, y) ==> Configured(tokenScopes, y))
  {
    hide Decide, Asked, FirstDeciding, NormalizePolicy, Configured;
    var scopes := Decide(NormalizePolicy(written), s).requiredScopes;
    forall y
      ensures Configured(server + scopes, y) <==> Configured(server, y) || Asked(written, decider, y)
    {
      DecisionScopes(written, s, decider, y);
      ConfiguredConcat(server, scopes, y);
    }
    NothingAsked(written, s, decider);
  }

  lemma ConfiguredConcat(a: seq<string>, b: seq<string>, y: string)
    ensures Configured(a + b, y) <==> Configured(a, y) || Configured(b, y)
  {
    if Configured(a, y) {
      var i :| 0 <= i < |a| && Trim(a[i]) == y;
      assert Trim((a + b)[i]) == y;
    }
    if Configured(b, y) {
      var i :| 0 <= i < |b| && Trim(b[i]) == y;
      assert Trim((a + b)[|a| + i]) == y;
    }
  }

  lemma NothingAsked(written: PolicyValue, s: Subject, decider: Option<PolicyRule>)
    requires Decide(NormalizePolicy(written), s).allowed
    requires FirstDeciding(NormalizePolicy(written), NormalizePolicy(written).rules, s) ==
      if decider.None? then None else Some(NormalizeRule(decider.value))
    ensures Decide(NormalizePolicy(written), s).requiredScopes == [] <==> forall y :: !Asked(written, decider, y)
  {
    hide Decide, Asked, FirstDeciding, NormalizePolicy;
    var scopes := Decide(NormalizePolicy(written), s).requiredScopes;
    forall y ensures Configured(scopes, y) <==> Asked(written, decider, y) {
      DecisionScopes(written, s, decider, y);
    }
    if scopes != [] {
      ScopesAreTight(written, s, decider);
      assert Configured(scopes, Trim(scopes[0]));
    }
  }

  lemma ScopesAreTight(written: PolicyValue, s: Subject, decider: Option<PolicyRule>)
    requires Decide(NormalizePolicy(written), s).allowed
    requires FirstDeciding(NormalizePolicy(written), NormalizePolicy(written).rules, s) ==
      if decider.None? then None else Some(NormalizeRule(decider.value))
    ensures AllTight(Decide(NormalizePolicy(written), s).requiredScopes)
  {
    DecisionScopeList(written, s, decider);
  }
}
