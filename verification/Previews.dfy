/** The warnings the claim and policy webhooks give early, and how far they can be trusted. */
module Previews {
  import opened Wrappers
  import opened Sorting
  import opened Glob
  import opened Api
  import opened Resolver
  import opened ResolverEngine
  import opened ResolverTheorems
  import opened SelectionTheorems
  import opened PermitTheorems
  import opened ClusterState

  /** Both previews ignore an error from the namespace read and go on without labels. */
  function PreviewLabels(st: Cluster, namespace: string): Labels {
    match NamespaceLabels(st, namespace) case Ok(l) => l case Err(_) => map[]
  }

  function Preview(st: Cluster, namespace: string, tps: seq<TokenPolicy>): Option<Resolved> {
    if ListClusterPolicies in st.failing || ListTokenPolicies(namespace) in st.failing then None
    else
      match Resolve(BaseInput(st.clusterPolicies, tps, namespace, PreviewLabels(st, namespace)))
      case Err(_) => None
      case Ok(e) => if e.modelGoverned then Some(e) else None
  }

  method ResolvePreview(st: Cluster, namespace: string, tps: seq<TokenPolicy>) returns (r: Option<Effective>)
    ensures r.Some? ==> fresh(r.value) && Preview(st, namespace, tps) == Some(r.value.View())
    ensures r.None? ==> Preview(st, namespace, tps) == None
  {
    if ListClusterPolicies in st.failing || ListTokenPolicies(namespace) in st.failing {
      return None;
    }
    var base := Effective.Resolve(BaseInput(st.clusterPolicies, tps, namespace, PreviewLabels(st, namespace)));
    if base.Err? || !base.value.modelGoverned {
      return None;
    }
    return Some(base.value);
  }

  // ---- permitWarnings ----

  function RefusesRequest(f: Verdicts): ModelRequest -> bool { (m: ModelRequest) => !f(m.provider, m.model).allowed }

  /** The requested models a claim's author is told will not bind, one warning for each in request order. */
  method PermitWarnings(st: Cluster, claim: ModelClaim) returns (flagged: seq<ModelRequest>)
    ensures flagged == match Preview(st, claim.namespace, PoliciesIn(st, claim.namespace))
                       case None => []
                       case Some(base) => Filter(RefusesRequest(Decide(base)), claim.models)
    ensures forall m :: m in flagged <==> m in claim.models && WillNotBind(st, claim.namespace, m)
  {
    flagged := [];
    var base := ResolvePreview(st, claim.namespace, PoliciesIn(st, claim.namespace));
    if base.None? {
      return;
    }
    flagged := RefusedRequests(base.value, claim.models);
    forall m ensures m in flagged <==> m in claim.models && WillNotBind(st, claim.namespace, m) {
      FilterMember(RefusesRequest(Decide(base.value.View())), claim.models, m);
    }
  }

  method RefusedRequests(base: Effective, models: seq<ModelRequest>) returns (flagged: seq<ModelRequest>)
    ensures flagged == Filter(RefusesRequest(Decide(base.View())), models)
  {
    flagged := [];
    ghost var f := Decide(base.View());
    for i := 0 to |models|
      invariant flagged == Filter(RefusesRequest(f), models[..i])
    {
      assert models[..i + 1][..i] == models[..i];
      var d := base.Permit(models[i].provider, models[i].model);
      assert d == f(models[i].provider, models[i].model);
      if !d.allowed {
        flagged := flagged + [models[i]];
      }
    }
    assert models[..|models|] == models;
  }

  ghost predicate WillNotBind(st: Cluster, namespace: string, m: ModelRequest) {
    Preview(st, namespace, PoliciesIn(st, namespace)).Some?
    && !Permit(Preview(st, namespace, PoliciesIn(st, namespace)).value, m.provider, m.model).allowed
  }

  /** A flagged model is refused for every pod identity in the namespace. */
  lemma FlaggedModelIsRefused(st: Cluster, namespace: string, m: ModelRequest, id: Identity, e: Resolved)
    requires WillNotBind(st, namespace, m)
    requires ResolveEffective(st, namespace, id) == Ok(e)
    ensures !Permit(e, m.provider, m.model).allowed
  {
    var input := GatherInput(st, namespace, id).value;
    NarrowNeverWiden(input, e, m.provider, m.model);
    assert input.(identity := NO_IDENTITY) ==
           BaseInput(st.clusterPolicies, PoliciesIn(st, namespace), namespace, PreviewLabels(st, namespace));
  }

  // ---- hierarchyWarnings ----

  function NamedOtherwise(name: string): TokenPolicy -> bool { (p: TokenPolicy) => p.name != name }

  /** The namespace's policies without the one under validation, whether or not an older version is stored. */
  function Rest(st: Cluster, tp: TokenPolicy): seq<TokenPolicy> {
    Filter(NamedOtherwise(tp.name), PoliciesIn(st, tp.namespace))
  }

  predicate HasNoEffect(base: Resolved, m: ModelPermission) {
    m.action != ActionDeny && !Permit(base, m.provider, m.model).allowed
  }

  function NoEffectUnder(base: Resolved): ModelPermission -> bool { (m: ModelPermission) => HasNoEffect(base, m) }

  /** The Allow rules a policy's author is told have no effect, one warning for each in rule order. */
  method HierarchyWarnings(st: Cluster, tp: TokenPolicy) returns (flagged: seq<ModelPermission>)
    ensures flagged == match Preview(st, tp.namespace, Rest(st, tp))
                       case None => []
                       case Some(base) => Filter(NoEffectUnder(base), tp.models)
    ensures forall m :: m in flagged <==>
              m in tp.models && Preview(st, tp.namespace, Rest(st, tp)).Some?
                && HasNoEffect(Preview(st, tp.namespace, Rest(st, tp)).value, m)
  {
    flagged := [];
    var listed := PoliciesIn(st, tp.namespace);
    var rest: seq<TokenPolicy> := [];
    for i := 0 to |listed|
      invariant rest == Filter(NamedOtherwise(tp.name), listed[..i])
    {
      assert listed[..i + 1][..i] == listed[..i];
      if listed[i].name != tp.name {
        rest := rest + [listed[i]];
      }
    }
    assert listed[..|listed|] == listed;
    var base := ResolvePreview(st, tp.namespace, rest);
    if base.None? {
      return;
    }
    flagged := DeadRules(base.value, tp.models);
    forall m ensures m in flagged <==> m in tp.models && HasNoEffect(base.value.View(), m) {
      FilterMember(NoEffectUnder(base.value.View()), tp.models, m);
    }
  }

  method DeadRules(base: Effective, models: seq<ModelPermission>) returns (flagged: seq<ModelPermission>)
    ensures flagged == Filter(NoEffectUnder(base.View()), models)
  {
    flagged := [];
    ghost var e := base.View();
    for i := 0 to |models|
      invariant flagged == Filter(NoEffectUnder(e), models[..i])
    {
      assert models[..i + 1][..i] == models[..i];
      var m := models[i];
      if m.action == ActionDeny {
        continue;
      }
      var d := base.Permit(m.provider, m.model);
      if !d.allowed {
        flagged := flagged + [m];
      }
    }
    assert models[..|models|] == models;
  }

  /** A query a literal rule matches is, to Permit, the rule's own provider and model. */
  lemma LiteralRuleVerdict(e: Resolved, r: ModelPermission, provider: string, model: string)
    requires Literal(r.provider) && Literal(r.model) && ModelMatches(r, provider, model)
    ensures Permit(e, provider, model).allowed <==> Permit(e, r.provider, r.model).allowed
  {
    LiteralMatchesItself(r.provider, provider);
    LiteralMatchesItself(r.model, model);
    PermitCongruent(e, r.provider, r.model, provider, model);
  }

  /** Installing a selector-scoped policy does not move the namespace-default scope. */
  lemma ScopedPolicyKeepsBase(cps: seq<ClusterTokenPolicy>, tps: seq<TokenPolicy>, nsLabels: Labels, tp: TokenPolicy)
    requires tp in tps && DistinctPolicyNames(tps) && !IsEmpty(tp.selector)
    ensures Resolve(BaseInput(cps, tps, tp.namespace, nsLabels))
         == Resolve(BaseInput(cps, Filter(NamedOtherwise(tp.name), tps), tp.namespace, nsLabels))
  {
    FilterTwice(IsNamespaceDefault, NamedOtherwise(tp.name), tps);
    NoIdentityResolve(cps, tps, tp.namespace, nsLabels);
    NoIdentityResolve(cps, Filter(NamedOtherwise(tp.name), tps), tp.namespace, nsLabels);
  }

  /** Whoever asks, the scope the policy is previewed against and the asker's workload tier decide together. */
  lemma PreviewedScopeDecides(cps: seq<ClusterTokenPolicy>, tps: seq<TokenPolicy>, nsLabels: Labels, tp: TokenPolicy,
                            base: Resolved, id: Identity, e: Resolved, provider: string, model: string)
    requires tp in tps && DistinctPolicyNames(tps) && !IsEmpty(tp.selector)
    requires Resolve(BaseInput(cps, Filter(NamedOtherwise(tp.name), tps), tp.namespace, nsLabels)) == Ok(base)
    requires Resolve(ResolveInput(cps, tps, tp.namespace, nsLabels, id)) == Ok(e)
    ensures Permit(e, provider, model).allowed <==>
            Permit(base, provider, model).allowed && Admits(e.wl.rules, provider, model)
  {
    var input := ResolveInput(cps, tps, tp.namespace, nsLabels, id);
    ScopedPolicyKeepsBase(cps, tps, nsLabels, tp);
    assert input.(identity := NO_IDENTITY) == BaseInput(cps, tps, tp.namespace, nsLabels);
    WorkloadTierDecides(input, e, provider, model);
  }


  ghost predicate NoDenyMatches(rules: seq<SourcedRule>, provider: string, model: string) {
    forall r :: r in rules ==> !Denies(r, provider, model)
  }

  /** A workload policy's own rules are among those of every identity it matches. */
  lemma OwnRulesApply(input: ResolveInput, tp: TokenPolicy, s: SourcedRule)
    requires tp in input.namespacePolicies && WorkloadVerdict(input.identity, tp) == Ok(true) && s in RulesOf(tp)
    ensures s in Rules(WorkloadChain(input))
  {
    var ps := WorkloadMatched(input);
    SortedFilterMember(PolicyKey, WorkloadApplies(input.identity), input.namespacePolicies, tp);
    var i :| 0 <= i < |ps| && ps[i] == tp;
    assert WorkloadChain(input)[i] == PolicyLayer(tp);
    RulesMember(WorkloadChain(input), s);
  }

  /**
   What an Allow rule of a selector-scoped policy grants, flagged or not, literal or glob: of the models it
   matches, a pod the policy selects may use exactly those the previewed scope permits and no Deny of a
   policy selecting the pod matches. A flag is wrong exactly when there is such a model.
   */
  lemma ScopedRuleGrantsExactly(cps: seq<ClusterTokenPolicy>, tps: seq<TokenPolicy>, nsLabels: Labels, tp: TokenPolicy,
                                base: Resolved, r: ModelPermission, id: Identity, e: Resolved, provider: string,
                                model: string)
    requires tp in tps && DistinctPolicyNames(tps) && !IsEmpty(tp.selector)
    requires Resolve(BaseInput(cps, Filter(NamedOtherwise(tp.name), tps), tp.namespace, nsLabels)) == Ok(base)
    requires Resolve(ResolveInput(cps, tps, tp.namespace, nsLabels, id)) == Ok(e) && WorkloadVerdict(id, tp) == Ok(true)
    requires r in tp.models && r.action != ActionDeny && ModelMatches(r, provider, model)
    ensures Permit(e, provider, model).allowed <==>
            Permit(base, provider, model).allowed && NoDenyMatches(e.wl.rules, provider, model)
  {
    PreviewedScopeDecides(cps, tps, nsLabels, tp, base, id, e, provider, model);
    var k :| 0 <= k < |tp.models| && tp.models[k] == r;
    var own := RulesOf(tp)[k];
    assert Grants(own, provider, model);
    OwnRulesApply(ResolveInput(cps, tps, tp.namespace, nsLabels, id), tp, own);
  }

  /**
   A literal Allow rule of a selector-scoped policy that the preview flags grants nothing: with the policy
   installed, whatever the rule matches is refused for every pod, selected by the policy or not.
   */
  lemma FlaggedLiteralRuleIsDead(cps: seq<ClusterTokenPolicy>, tps: seq<TokenPolicy>, nsLabels: Labels, tp: TokenPolicy,
                                 base: Resolved, r: ModelPermission, id: Identity, e: Resolved, provider: string,
                                 model: string)
    requires tp in tps && DistinctPolicyNames(tps) && !IsEmpty(tp.selector)
    requires Resolve(BaseInput(cps, Filter(NamedOtherwise(tp.name), tps), tp.namespace, nsLabels)) == Ok(base)
    requires HasNoEffect(base, r) && Literal(r.provider) && Literal(r.model)
    requires Resolve(ResolveInput(cps, tps, tp.namespace, nsLabels, id)) == Ok(e) && ModelMatches(r, provider, model)
    ensures !Permit(e, provider, model).allowed
  {
    PreviewedScopeDecides(cps, tps, nsLabels, tp, base, id, e, provider, model);
    LiteralRuleVerdict(base, r, provider, model);
  }

  // ---- The same warning on a namespace-default policy ----

  /** The namespace tier holds exactly the rules of the default policies. */
  lemma DefaultRules(cps: seq<ClusterTokenPolicy>, tps: seq<TokenPolicy>, namespace: string, nsLabels: Labels,
                     r: SourcedRule)
    ensures r in Rules(DefaultChain(BaseInput(cps, tps, namespace, nsLabels))) <==>
            exists p :: p in tps && IsEmpty(p.selector) && r in SourceAll(p.models, PolicySource(p.namespace, p.name))
  {
    var input := BaseInput(cps, tps, namespace, nsLabels);
    var ps, chain := DefaultsMatched(input), DefaultChain(input);
    RulesMember(chain, r);
    if i :| 0 <= i < |chain| && r in SourceAll(chain[i].models, chain[i].source) {
      SortedFilterMember(PolicyKey, IsNamespaceDefault, tps, ps[i]);
      assert ps[i] in ps;
    }
    if p :| p in tps && IsEmpty(p.selector) && r in SourceAll(p.models, PolicySource(p.namespace, p.name)) {
      SortedFilterMember(PolicyKey, IsNamespaceDefault, tps, p);
      var i :| 0 <= i < |ps| && ps[i] == p;
      assert chain[i] == PolicyLayer(p);
    }
  }

  lemma DefaultTierGrows(cps: seq<ClusterTokenPolicy>, tps: seq<TokenPolicy>, nsLabels: Labels, tp: TokenPolicy,
                         r: SourcedRule)
    requires tp in tps && DistinctPolicyNames(tps) && IsEmpty(tp.selector)
    ensures var rest := Filter(NamedOtherwise(tp.name), tps);
            r in Rules(DefaultChain(BaseInput(cps, tps, tp.namespace, nsLabels))) <==>
            r in Rules(DefaultChain(BaseInput(cps, rest, tp.namespace, nsLabels)))
            || r in SourceAll(tp.models, PolicySource(tp.namespace, tp.name))
  {
    var rest := Filter(NamedOtherwise(tp.name), tps);
    DefaultRules(cps, tps, tp.namespace, nsLabels, r);
    DefaultRules(cps, rest, tp.namespace, nsLabels, r);
    if p :| p in tps && IsEmpty(p.selector) && r in SourceAll(p.models, PolicySource(p.namespace, p.name)) {
      FilterMember(NamedOtherwise(tp.name), tps, p);
      assert p.name == tp.name ==> p == tp;
    }
    if p :| p in rest && IsEmpty(p.selector) && r in SourceAll(p.models, PolicySource(p.namespace, p.name)) {
      FilterMember(NamedOtherwise(tp.name), tps, p);
    }
  }

  /**
   What an Allow rule of a namespace-default policy grants: of the models it matches, exactly those the
   cluster tier admits and no Deny among the defaults, the policy's own included, matches. Omission from
   the other defaults' allowlist is lifted by the rule, because sibling policies pool their Allow rules.
   */
  lemma DefaultRuleGrantsExactly(cps: seq<ClusterTokenPolicy>, tps: seq<TokenPolicy>, nsLabels: Labels, tp: TokenPolicy,
                                 base: Resolved, after: Resolved, r: ModelPermission, provider: string, model: string)
    requires tp in tps && DistinctPolicyNames(tps) && IsEmpty(tp.selector)
    requires Resolve(BaseInput(cps, Filter(NamedOtherwise(tp.name), tps), tp.namespace, nsLabels)) == Ok(base)
    requires Resolve(BaseInput(cps, tps, tp.namespace, nsLabels)) == Ok(after)
    requires r in tp.models && r.action != ActionDeny && ModelMatches(r, provider, model)
    ensures Permit(after, provider, model).allowed <==>
            Admits(base.cluster.rules, provider, model)
            && NoDenyMatches(base.ns.rules, provider, model) && NoDenyMatches(RulesOf(tp), provider, model)
  {
    var own := RulesOf(tp);
    NoIdentityResolve(cps, tps, tp.namespace, nsLabels);
    NoIdentityResolve(cps, Filter(NamedOtherwise(tp.name), tps), tp.namespace, nsLabels);
    assert after.wl.rules == [] && after.cluster == base.cluster;
    forall s ensures s in after.ns.rules <==> s in base.ns.rules || s in own {
      DefaultTierGrows(cps, tps, nsLabels, tp, s);
    }
    PermitExactly(after, provider, model);
    var k :| 0 <= k < |tp.models| && tp.models[k] == r;
    assert own[k] in after.ns.rules && Grants(own[k], provider, model);
  }

  /** Hence the warning about the rule's own provider and model is right exactly when one of these refuses it. */
  lemma DefaultRuleWarningExactly(cps: seq<ClusterTokenPolicy>, tps: seq<TokenPolicy>, nsLabels: Labels,
                                  tp: TokenPolicy,
                                  base: Resolved, after: Resolved, r: ModelPermission)
    requires tp in tps && DistinctPolicyNames(tps) && IsEmpty(tp.selector)
    requires Resolve(BaseInput(cps, Filter(NamedOtherwise(tp.name), tps), tp.namespace, nsLabels)) == Ok(base)
    requires Resolve(BaseInput(cps, tps, tp.namespace, nsLabels)) == Ok(after)
    requires r in tp.models && r.action != ActionDeny && HasNoEffect(base, r)
    ensures !Permit(after, r.provider, r.model).allowed <==>
            !Admits(base.cluster.rules, r.provider, r.model)
            || !NoDenyMatches(base.ns.rules, r.provider, r.model) || !NoDenyMatches(RulesOf(tp), r.provider, r.model)
  {
    DefaultRuleGrantsExactly(cps, tps, nsLabels, tp, base, after, r, r.provider, r.model);
  }
}
