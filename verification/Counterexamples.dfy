/**
 Concrete hierarchies on which a documented or displayed promise fails, beside the theorems that say when it
 holds.
 */
module Counterexamples {
  import opened Wrappers
  import opened Strings
  import opened Sorting
  import opened Glob
  import opened GlobTheorems
  import opened Api
  import opened Resolver
  import opened ResolverEngine
  import opened ResolverTheorems
  import opened PermitTheorems
  import opened Declarations
  import opened PodValidation
  import opened Claims
  import opened Previews

  // ---- Small hierarchies ----

  /** A policy for the account "batch". */
  function BatchPolicy(models: seq<ModelPermission>): TokenPolicy {
    TokenPolicy("payments", "batch", Some(WorkloadSelector(None, ["batch"])), models, None, EnforcementUnset, 0, None)
  }

  lemma RulesOne(l: Layer)
    ensures Rules([l]) == SourceAll(l.models, l.source)
  {
    assert [l][..0] == [] && Rules([l][..0]) == [];
  }

  lemma OneClusterPolicy(input: ResolveInput, ctp: ClusterTokenPolicy)
    requires input.clusterPolicies == [ctp] && ctp.namespaceSelector == None
    ensures FirstFault(ClusterFault(input.namespaceLabels), input.clusterPolicies) == None
    ensures ClusterChain(input) == [ClusterLayer(ctp)]
    ensures Rules(ClusterChain(input)) == SourceAll(ctp.models, ClusterSource(ctp.name))
  {
    FaultFree(ClusterFault(input.namespaceLabels), [ctp]);
    FilterAll(ClusterApplies(input.namespaceLabels), [ctp]);
    SortOne(ClusterKey, ctp);
    assert ClusterLayersOf([ctp]) == [ClusterLayer(ctp)];
    RulesOne(ClusterLayer(ctp));
  }

  /** One cluster policy for every namespace, and no default policy and no identity. */
  lemma ClusterOnly(input: ResolveInput, ctp: ClusterTokenPolicy)
    requires input.clusterPolicies == [ctp] && ctp.namespaceSelector == None && input.identity == NO_IDENTITY
    requires forall i :: 0 <= i < |input.namespacePolicies| ==> !IsEmpty(input.namespacePolicies[i].selector)
    ensures Resolve(input).Ok?
    ensures var e := Resolve(input).value;
            e.cluster.rules == SourceAll(ctp.models, ClusterSource(ctp.name)) && e.ns.rules == [] && e.wl.rules == []
  {
    OneClusterPolicy(input, ctp);
    FilterNone(IsNamespaceDefault, input.namespacePolicies);
    NoIdentityNoWorkloads(NO_IDENTITY, input.namespacePolicies);
  }

  /** One cluster policy for every namespace, and one workload policy the identity matches. */
  lemma TwoPolicies(input: ResolveInput, ctp: ClusterTokenPolicy, tp: TokenPolicy)
    requires input.clusterPolicies == [ctp] && ctp.namespaceSelector == None
    requires input.namespacePolicies == [tp] && WorkloadVerdict(input.identity, tp) == Ok(true)
    ensures Resolve(input).Ok?
    ensures var e := Resolve(input).value;
            e.cluster.rules == SourceAll(ctp.models, ClusterSource(ctp.name)) && e.ns.rules == []
              && e.wl.rules == RulesOf(tp)
  {
    OneClusterPolicy(input, ctp);
    OneWorkloadPolicy(input, tp);
    FaultFree(WorkloadFault(input.identity), [tp]);
    FilterNone(IsNamespaceDefault, [tp]);
    RulesOne(PolicyLayer(tp));
  }

  lemma OneWorkloadPolicy(input: ResolveInput, tp: TokenPolicy)
    requires input.namespacePolicies == [tp] && WorkloadVerdict(input.identity, tp) == Ok(true)
    ensures WorkloadChain(input) == [PolicyLayer(tp)]
  {
    FilterAll(WorkloadApplies(input.identity), [tp]);
    SortOne(PolicyKey, tp);
    assert PolicyLayersOf([tp]) == [PolicyLayer(tp)];
  }

  /** Two workload policies the identity matches, listed in descending order. */
  lemma TwoWorkloadPolicies(input: ResolveInput, low: TokenPolicy, high: TokenPolicy)
    requires input.clusterPolicies == [] && input.namespacePolicies == [high, low]
    requires WorkloadVerdict(input.identity, low) == WorkloadVerdict(input.identity, high) == Ok(true)
    requires KeyLess(PolicyKey(low), PolicyKey(high))
    ensures WorkloadMatched(input) == [low, high] && Resolve(input).Ok?
    ensures var e := Resolve(input).value;
            e.cluster.rules == [] && e.ns.rules == [] && e.wl.rules == RulesOf(low) + RulesOf(high)
  {
    var ps := input.namespacePolicies;
    FaultFree(WorkloadFault(input.identity), ps);
    FilterNone(IsNamespaceDefault, ps);
    FilterAll(WorkloadApplies(input.identity), ps);
    assert ps[..1] == [high];
    SortOne(PolicyKey, high);
    var layers := PolicyLayersOf([low, high]);
    assert layers == [PolicyLayer(low), PolicyLayer(high)] && layers[..1] == [PolicyLayer(low)];
    RulesOne(PolicyLayer(low));
  }

  /** One namespace-default policy, no cluster policy and no identity. */
  lemma OneDefault(input: ResolveInput, tp: TokenPolicy)
    requires input.clusterPolicies == [] && input.namespacePolicies == [tp] && IsEmpty(tp.selector)
             && input.identity == NO_IDENTITY
    ensures Resolve(input).Ok?
    ensures var e := Resolve(input).value;
            e.cluster.rules == [] && e.ns.rules == RulesOf(tp) && e.wl.rules == []
  {
    NoIdentityNoWorkloads(NO_IDENTITY, [tp]);
    FilterAll(IsNamespaceDefault, [tp]);
    SortOne(PolicyKey, tp);
    assert PolicyLayersOf([tp]) == [PolicyLayer(tp)];
    RulesOne(PolicyLayer(tp));
  }

  /** A tier with a single rule admits what an Allow matches, or what a Deny does not match. */
  lemma OneRuleTier(r: ModelPermission, source: string, provider: string, model: string)
    requires r.action != ActionUnset
    ensures Admits(SourceAll([r], source), provider, model) <==>
            (ModelMatches(r, provider, model) <==> r.action == ActionAllow)
  {
    var s := SourcedRule(r, source);
    assert SourceAll([r], source) == [s] && s in [s];
  }

  // ---- Priorities ----

  /**
   Of two policies that select a workload and allow the model with credentials of their own, the one with
   priority 0 supplies the credential and the one with priority 10 does not.
   */
  lemma LowerPrioritySupplies() returns (low: TokenPolicy, high: TokenPolicy, input: ResolveInput)
    ensures low.priority == 0 && high.priority == 10 && input.namespacePolicies == [high, low]
    ensures WorkloadMatched(input) == [low, high] && Offers(low, "openai", "o1") && Offers(high, "openai", "o1")
    ensures low.models[0].credentialRef == Some("low") && high.models[0].credentialRef == Some("high")
    ensures Resolve(input).Ok? && Permit(Resolve(input).value, "openai", "o1").allowed
    ensures Permit(Resolve(input).value, "openai", "o1").credential == "low"
  {
    var selector := Some(WorkloadSelector(None, ["batch"]));
    var a := ModelPermission("openai", "o1", ActionAllow, Some("low"));
    var b := ModelPermission("openai", "o1", ActionAllow, Some("high"));
    low := TokenPolicy("payments", "low", selector, [a], None, EnforcementUnset, 0, None);
    high := TokenPolicy("payments", "high", selector, [b], None, EnforcementUnset, 10, None);
    input := ResolveInput([], [high, low], "payments", map[], Identity(None, "batch"));
    TwoWorkloadPolicies(input, low, high);
    assert RulesOf(low)[0].rule == a && RulesOf(high)[0].rule == b;
    assert Grants(RulesOf(low)[0], "openai", "o1") && Grants(RulesOf(high)[0], "openai", "o1");
    FirstOfTwo(Resolve(input).value, RulesOf(low)[0], RulesOf(high)[0], "openai", "o1");
  }

  lemma FirstOfTwo(e: Resolved, first: SourcedRule, second: SourcedRule, provider: string, model: string)
    requires e.cluster.rules == [] && e.ns.rules == [] && e.wl.rules == [first, second]
    requires Grants(first, provider, model) && Grants(second, provider, model)
             && CredentialName(first.rule.credentialRef) != ""
    ensures Permit(e, provider, model).allowed
    ensures Permit(e, provider, model).credential == CredentialName(first.rule.credentialRef)
  {
    assert !Denies(first, provider, model) && !Denies(second, provider, model);
    FirstDenySearch(e.wl.rules, provider, model);
  }

  // ---- Rules in front of the one that names a credential ----

  /** One policy allows the model twice, the second time with a credential; Permit answers with the default. */
  lemma LaterNamingRuleIsPassedOver() returns (input: ResolveInput, e: Resolved)
    ensures Resolve(input) == Ok(e) && Permit(e, "openai", "o1").allowed
    ensures DocumentedSupplier(e, "openai", "o1", WorkloadLevel, 1) && e.wl.rules[1].rule.credentialRef == Some("team")
    ensures Permit(e, "openai", "o1").credential == e.defaultCredential == ""
  {
    var bare := ModelPermission("openai", "o1", ActionAllow, None);
    var named := ModelPermission("openai", "o1", ActionAllow, Some("team"));
    var ctp := ClusterTokenPolicy("default", None, [], None, Enforce, None, None);
    var tp := BatchPolicy([bare, named]);
    input := ResolveInput([ctp], [tp], "payments", map[], Identity(None, "batch"));
    TwoPolicies(input, ctp, tp);
    e := Resolve(input).value;
    var source := PolicySource(tp.namespace, tp.name);
    assert e.wl.rules == [SourcedRule(bare, source), SourcedRule(named, source)];
    BareRuleFirst(e, SourcedRule(bare, source), SourcedRule(named, source), "openai", "o1");
    NoDefaultCredential(input, e);
  }

  lemma NoDefaultCredential(input: ResolveInput, e: Resolved)
    requires Resolve(input) == Ok(e)
    requires forall p :: p in input.clusterPolicies ==> p.defaultCredentialRef == None
    ensures e.defaultCredential == ""
  {
    forall l | Applicable(input, l) ensures l.defaultCredential == None {
    }
    UnsetScalars(input, e);
  }

  lemma BareRuleFirst(e: Resolved, first: SourcedRule, second: SourcedRule, provider: string, model: string)
    requires e.cluster.rules == [] && e.ns.rules == [] && e.wl.rules == [first, second]
    requires Grants(first, provider, model) && first.rule.credentialRef == None
    requires NamesCredential(second, provider, model)
    ensures Permit(e, provider, model).allowed && Permit(e, provider, model).credential == e.defaultCredential
    ensures DocumentedSupplier(e, provider, model, WorkloadLevel, 1)
  {
    assert !Denies(first, provider, model) && !Denies(second, provider, model);
    FirstDenySearch(e.wl.rules, provider, model);
  }

  // ---- Enforcement ----

  lemma OneRefusal(e: Resolved, d: Declared)
    requires !Permit(e, d.provider, d.model).allowed
    ensures Refusals(Decide(e), [d]) != []
  {
    assert [d][..0] == [] && [d][0] == d;
  }

  /**
   A pod that declares a model its cluster's allowlist omits is rejected by its namespace default and, under a
   workload policy that sets Disabled and nothing else, admitted.
   */
  lemma DisabledWorkloadIsAdmitted() returns (input: ResolveInput, d: Declared)
    ensures var base, live := Resolve(input.(identity := NO_IDENTITY)), Resolve(input);
            && base.Ok? && Respond(base.value, [d]).Forbidden?
            && live.Ok? && !Permit(live.value, d.provider, d.model).allowed && Respond(live.value, [d]) == Allowed([])
  {
    var allow := ModelPermission("openai", "o2", ActionAllow, None);
    var ctp := ClusterTokenPolicy("default", None, [allow], None, Enforce, None, None);
    var tp := TokenPolicy("payments", "off", Some(WorkloadSelector(None, ["batch"])), [], None, Disabled, 0, None);
    input := ResolveInput([ctp], [tp], "payments", map[], Identity(None, "batch"));
    d := Declared("openai", "o1", "");
    ClusterOnly(input.(identity := NO_IDENTITY), ctp);
    TwoPolicies(input, ctp, tp);
    var base, live := Resolve(input.(identity := NO_IDENTITY)).value, Resolve(input).value;
    OtherLiteral();
    OneRuleTier(allow, ClusterSource("default"), "openai", "o1");
    PermitExactly(base, "openai", "o1");
    PermitExactly(live, "openai", "o1");
    OneRefusal(base, d);
    ModesOfTwo(input, ctp, tp);
  }

  lemma ModesOfTwo(input: ResolveInput, ctp: ClusterTokenPolicy, tp: TokenPolicy)
    requires input.clusterPolicies == [ctp] && ctp.namespaceSelector == None && ctp.enforcement == Enforce
    requires input.namespacePolicies == [tp] && WorkloadVerdict(input.identity, tp) == Ok(true)
             && tp.enforcement == Disabled
    requires Resolve(input).Ok? && Resolve(input.(identity := NO_IDENTITY)).Ok?
    ensures var base := Resolve(input.(identity := NO_IDENTITY)).value;
            base.governed && base.enforcement == Enforce && Resolve(input).value.enforcement == Disabled
  {
    var none := input.(identity := NO_IDENTITY);
    NoIdentityNoWorkloads(NO_IDENTITY, [tp]);
    FilterNone(IsNamespaceDefault, [tp]);
    OneClusterPolicy(none, ctp);
    assert ClusterChain(none) + [] + [] == [ClusterLayer(ctp)];
    assert EnforcementOf(WorkloadChain(input)) == Disabled && PolicyLayer(tp) in WorkloadChain(input) by {
      OneWorkloadPolicy(input, tp);
    }
    ModesAlongChain(input, Resolve(input).value, Resolve(none).value);
  }

  // ---- Binding previews ----

  /** A claim without accounts may be Bound and its pod refused. */
  lemma BindingWithoutAccountsIsNoPromise() returns (claim: ModelClaim, base: ResolveInput, account: string)
    ensures claim.selector == None && |claim.models| == 1
    ensures ResolveClaim(claim, base).Ok? && ResolveClaim(claim, base).value[0].action == ActionAllow
    ensures var live := Resolve(base.(identity := Identity(Some(map[]), account)));
            live.Ok? && !Permit(live.value, claim.models[0].provider, claim.models[0].model).allowed
  {
    var deny := ModelPermission("openai", "o1", ActionDeny, None);
    var ctp := ClusterTokenPolicy("default", None, [], None, Enforce, None, None);
    var tp := BatchPolicy([deny]);
    account := "batch";
    claim := ModelClaim("payments", "c", None, [ModelRequest("openai", "o1", None)]);
    base := ResolveInput([ctp], [tp], "payments", map[], NO_IDENTITY);
    ClusterOnly(base, ctp);
    PermitExactly(Resolve(base).value, "openai", "o1");
    ClaimOfNobody(claim, base);
    var live := base.(identity := Identity(Some(map[]), account));
    TwoPolicies(live, ctp, tp);
    OneRuleTier(deny, PolicySource("payments", "batch"), "openai", "o1");
    PermitExactly(Resolve(live).value, "openai", "o1");
  }

  lemma ClaimOfNobody(claim: ModelClaim, base: ResolveInput)
    requires claim.selector == None && |claim.models| == 1 && base.identity == NO_IDENTITY
    requires Resolve(base).Ok? && Permit(Resolve(base).value, claim.models[0].provider, claim.models[0].model).allowed
    ensures ResolveClaim(claim, base).Ok? && ResolveClaim(claim, base).value[0].action == ActionAllow
  {
    var ids := [NO_IDENTITY];
    assert ids[..0] == [] && InputFor(base, NO_IDENTITY) == base;
    assert ResolveAll(base, ids[..0]) == Ok([]);
    ClaimVerdictExact(claim, base, 0);
  }

  // ---- Flagged rules ----

  lemma StarPattern()
    ensures GlobMatch("o*", "o1") && !GlobMatch("o1", "o*")
  {
    TrimSpaceFixes("o*");
    TrimSpaceFixes("o1");
    assert ToLower("o*") == "o" + "*" && ToLower("o1") == "o1";
    LiteralOf("o", ['o']);
    TrailingStarExactly("o*", "o", "o1");
    assert "o1"[|"o"|..] == "1";
    LiteralOf("o1", ['o', '1']);
    LiteralMatchesItself("o1", "o*");
    assert "o1"[1] != "o*"[1];
  }

  lemma LiteralOf(pattern: string, characters: seq<char>)
    requires pattern == characters && '*' !in characters && '?' !in characters && '[' !in characters
             && '\\' !in characters
    ensures Literal(pattern)
  {
  }

  /**
   The rule o* is flagged against a cluster allowlist of o1, because the preview asks for a model called
   "o*", yet installed it permits o1 to its workload.
   */
  lemma FlaggedGlobGrants() returns (cps: seq<ClusterTokenPolicy>, tp: TokenPolicy, r: ModelPermission, id: Identity)
    ensures !IsEmpty(tp.selector) && r in tp.models
    ensures Resolve(BaseInput(cps, [], tp.namespace, map[])).Ok?
    ensures HasNoEffect(Resolve(BaseInput(cps, [], tp.namespace, map[])).value, r)
    ensures Resolve(ResolveInput(cps, [tp], tp.namespace, map[], id)).Ok?
    ensures ModelMatches(r, "openai", "o1")
            && Permit(Resolve(ResolveInput(cps, [tp], tp.namespace, map[], id)).value, "openai", "o1").allowed
  {
    var a := ModelPermission("openai", "o1", ActionAllow, None);
    r := ModelPermission("openai", "o*", ActionAllow, None);
    var ctp := ClusterTokenPolicy("default", None, [a], None, Enforce, None, None);
    cps := [ctp];
    tp := BatchPolicy([r]);
    id := Identity(None, "batch");
    var base, live := BaseInput(cps, [], tp.namespace, map[]), ResolveInput(cps, [tp], tp.namespace, map[], id);
    ClusterOnly(base, ctp);
    TwoPolicies(live, ctp, tp);
    StarPattern();
    OneRuleTier(a, ClusterSource("default"), "openai", "o*");
    OneRuleTier(a, ClusterSource("default"), "openai", "o1");
    OneRuleTier(r, PolicySource("payments", "batch"), "openai", "o1");
    PermitExactly(Resolve(base).value, "openai", "o*");
    PermitExactly(Resolve(live).value, "openai", "o1");
  }

  /** A rule is flagged against a default policy whose only rule, an Allow, does not match what it allows ... */
  lemma FlaggedBySibling(base: ResolveInput, sibling: TokenPolicy, other: ModelPermission, r: ModelPermission)
    requires base.clusterPolicies == [] && base.namespacePolicies == [sibling] && base.identity == NO_IDENTITY
    requires IsEmpty(sibling.selector) && sibling.models == [other]
    requires other.action == r.action == ActionAllow && !ModelMatches(other, r.provider, r.model)
    ensures Resolve(base).Ok? && HasNoEffect(Resolve(base).value, r)
    ensures Resolve(base).value.cluster.rules == [] && Resolve(base).value.ns.rules == RulesOf(sibling)
  {
    OneDefault(base, sibling);
    OneRuleTier(other, PolicySource(sibling.namespace, sibling.name), r.provider, r.model);
    PermitExactly(Resolve(base).value, r.provider, r.model);
  }

  lemma AllowsDoNotDeny(p: TokenPolicy, provider: string, model: string)
    requires |p.models| == 1 && p.models[0].action == ActionAllow
    ensures NoDenyMatches(RulesOf(p), provider, model)
  {
  }

  /** ... and grants it all the same. */
  lemma PooledWithSibling(sibling: TokenPolicy, tp: TokenPolicy, r: ModelPermission, base: Resolved, after: Resolved)
    requires IsEmpty(tp.selector) && sibling.name != tp.name && tp.models == [r] && r.action == ActionAllow
    requires |sibling.models| == 1 && sibling.models[0].action == ActionAllow
    requires Resolve(BaseInput([], Filter(NamedOtherwise(tp.name), [sibling, tp]), tp.namespace, map[])) == Ok(base)
    requires base.cluster.rules == [] && base.ns.rules == RulesOf(sibling)
    requires Resolve(BaseInput([], [sibling, tp], tp.namespace, map[])) == Ok(after)
    ensures Permit(after, r.provider, r.model).allowed
  {
    DefaultRuleGrantsExactly([], [sibling, tp], map[], tp, base, after, r, r.provider, r.model);
    AllowsDoNotDeny(sibling, r.provider, r.model);
    AllowsDoNotDeny(tp, r.provider, r.model);
  }

  /** A default policy's rule o1 is flagged against a sibling default that allows o2 alone, yet permits o1. */
  lemma FlaggedDefaultRuleGrants() returns (sibling: TokenPolicy, tp: TokenPolicy, r: ModelPermission)
    ensures IsEmpty(tp.selector) && r in tp.models && sibling.namespace == tp.namespace && sibling.name != tp.name
    ensures var base := Resolve(BaseInput([], [sibling], tp.namespace, map[]));
            base.Ok? && HasNoEffect(base.value, r)
    ensures var after := Resolve(BaseInput([], [sibling, tp], tp.namespace, map[]));
            after.Ok? && Permit(after.value, r.provider, r.model).allowed
  {
    r := ModelPermission("openai", "o1", ActionAllow, None);
    var other := ModelPermission("openai", "o2", ActionAllow, None);
    sibling := TokenPolicy("payments", "a", None, [other], None, EnforcementUnset, 0, None);
    tp := TokenPolicy("payments", "b", None, [r], None, EnforcementUnset, 0, None);
    OtherLiteral();
    var base, after := BaseInput([], [sibling], tp.namespace, map[]), BaseInput([], [sibling, tp], tp.namespace, map[]);
    FlaggedBySibling(base, sibling, other, r);
    NoIdentityResolve([], [sibling, tp], tp.namespace, map[]);
    RestOfTwo(sibling, tp);
    PooledWithSibling(sibling, tp, r, Resolve(base).value, Resolve(after).value);
  }

  lemma RestOfTwo(sibling: TokenPolicy, tp: TokenPolicy)
    requires sibling.name != tp.name
    ensures Filter(NamedOtherwise(tp.name), [sibling, tp]) == [sibling]
  {
    FilterOne(NamedOtherwise(tp.name), sibling);
    FilterLast(NamedOtherwise(tp.name), [sibling], tp);
  }

  lemma OtherLiteral()
    ensures !GlobMatch("o2", "o1")
  {
    TrimSpaceFixes("o1");
    TrimSpaceFixes("o2");
    assert ToLower("o1") == "o1" && ToLower("o2") == "o2";
    LiteralOf("o2", ['o', '2']);
    LiteralMatchesItself("o2", "o1");
    assert "o2"[1] != "o1"[1];
  }
}
