/** Which models a scope may use, over the fields of the policies that govern it. */
module DecisionTheorems {
  import opened Wrappers
  import opened Strings
  import opened Sorting
  import opened FirstOccurrences
  import opened Glob
  import opened GlobTheorems
  import opened Api
  import opened Resolver
  import opened PermitTheorems
  import opened SelectionTheorems

  ghost predicate Hits(r: ModelPermission, provider: string, model: string) {
    GlobMatch(r.provider, provider) && GlobMatch(r.model, model)
  }

  /** No Deny hits the query, and if there are other rules, one of them does. */
  ghost predicate RulesLet(rules: seq<SourcedRule>, provider: string, model: string) {
    && (forall r :: r in rules && r.rule.action == ActionDeny ==> !Hits(r.rule, provider, model))
    && ((exists r :: r in rules && r.rule.action != ActionDeny) ==>
          exists r :: r in rules && r.rule.action != ActionDeny && Hits(r.rule, provider, model))
  }

  lemma RulesLetExactly(rules: seq<SourcedRule>, provider: string, model: string)
    ensures RulesLet(rules, provider, model) <==> Admits(rules, provider, model)
  {
    forall r: SourcedRule
      ensures IsAllow(r) <==> r.rule.action != ActionDeny
      ensures Denies(r, provider, model) <==> r.rule.action == ActionDeny && Hits(r.rule, provider, model)
      ensures Grants(r, provider, model) <==> r.rule.action != ActionDeny && Hits(r.rule, provider, model)
    {
    }
  }

  /** Permit lets a query pass exactly if the rules of all three tiers do; a rule without an action allows. */
  lemma PermitByRules(e: Resolved, provider: string, model: string)
    ensures Permit(e, provider, model).allowed <==>
            RulesLet(e.cluster.rules, provider, model) && RulesLet(e.ns.rules, provider, model)
            && RulesLet(e.wl.rules, provider, model)
  {
    PermitExactly(e, provider, model);
    RulesLetExactly(e.cluster.rules, provider, model);
    RulesLetExactly(e.ns.rules, provider, model);
    RulesLetExactly(e.wl.rules, provider, model);
  }

  // ---- Over the governing policies ----

  ghost predicate Forbids(input: ResolveInput, tier: int, provider: string, model: string) {
    exists g, r :: Governs(input, g) && g.TierRank() == tier && r in g.Models()
                   && r.action == ActionDeny && Hits(r, provider, model)
  }

  ghost predicate ListsSome(input: ResolveInput, tier: int) {
    exists g, r :: Governs(input, g) && g.TierRank() == tier && r in g.Models() && r.action != ActionDeny
  }

  ghost predicate Lists(input: ResolveInput, tier: int, provider: string, model: string) {
    exists g, r :: Governs(input, g) && g.TierRank() == tier && r in g.Models()
                   && r.action != ActionDeny && Hits(r, provider, model)
  }

  /** A tier lets a query pass: nothing in it forbids it, and it lists the query if it lists anything. */
  ghost predicate TierLets(input: ResolveInput, tier: int, provider: string, model: string) {
    !Forbids(input, tier, provider, model) && (ListsSome(input, tier) ==> Lists(input, tier, provider, model))
  }

  ghost function TierRules(e: Resolved, tier: int): seq<SourcedRule> {
    if tier == 0 then e.cluster.rules else if tier == 1 then e.ns.rules else e.wl.rules
  }

  lemma RuleOfGovernor(input: ResolveInput, e: Resolved, tier: int, r: SourcedRule) returns (g: Governor)
    requires Resolve(input) == Ok(e) && 0 <= tier <= 2 && r in TierRules(e, tier)
    ensures Governs(input, g) && g.TierRank() == tier && r.rule in g.Models()
  {
    RulesExactly(input, e, r);
    if tier == 0 {
      g :| Governs(input, g) && g.InCluster? && Contributes(g, r);
    } else if tier == 1 {
      g :| Governs(input, g) && g.AsDefault? && Contributes(g, r);
    } else {
      g :| Governs(input, g) && g.ForWorkload? && Contributes(g, r);
    }
  }

  lemma GovernorsRule(input: ResolveInput, e: Resolved, g: Governor, m: ModelPermission)
    requires Resolve(input) == Ok(e) && Governs(input, g) && m in g.Models()
    ensures SourcedRule(m, g.Source()) in TierRules(e, g.TierRank())
  {
    RulesExactly(input, e, SourcedRule(m, g.Source()));
    assert Contributes(g, SourcedRule(m, g.Source()));
  }

  lemma TierLetsExactly(input: ResolveInput, e: Resolved, tier: int, provider: string, model: string)
    requires Resolve(input) == Ok(e) && 0 <= tier <= 2
    ensures TierLets(input, tier, provider, model) <==> RulesLet(TierRules(e, tier), provider, model)
  {
    var rules := TierRules(e, tier);
    forall r | r in rules ensures exists g :: Governs(input, g) && g.TierRank() == tier && r.rule in g.Models() {
      var g := RuleOfGovernor(input, e, tier, r);
    }
    forall g, m | Governs(input, g) && g.TierRank() == tier && m in g.Models() ensures exists r ::
      r in rules && r.rule == m {
      GovernorsRule(input, e, g, m);
      assert SourcedRule(m, g.Source()).rule == m;
    }
  }

  /**
   The whole decision over fields: a model may be used exactly if, among the cluster policies that match the
   namespace, among its default policies and among the policies that select the workload, no Deny rule hits
   it and, where there are other rules, one of them does.
   */
  lemma PermittedByPolicies(input: ResolveInput, e: Resolved, provider: string, model: string)
    requires Resolve(input) == Ok(e)
    ensures Permit(e, provider, model).allowed <==>
            TierLets(input, 0, provider, model) && TierLets(input, 1, provider, model)
              && TierLets(input, 2, provider, model)
  {
    PermitByRules(e, provider, model);
    TierLetsExactly(input, e, 0, provider, model);
    TierLetsExactly(input, e, 1, provider, model);
    TierLetsExactly(input, e, 2, provider, model);
  }

  // ---- Catch-all rules ----

  ghost predicate CatchAll(r: ModelPermission) { TrimSpace(r.provider) == "*" && TrimSpace(r.model) == "*" }

  /** A catch-all hits every query, slashes included. */
  lemma CatchAllHits(r: ModelPermission, provider: string, model: string)
    requires CatchAll(r)
    ensures Hits(r, provider, model)
  {
    CatchAllMatches(r.provider, provider);
    CatchAllMatches(r.model, model);
  }

  /** A governing policy with a catch-all Deny refuses every query. */
  lemma CatchAllDenies(input: ResolveInput, e: Resolved, g: Governor, r: ModelPermission, provider: string,
                       model: string)
    requires Resolve(input) == Ok(e) && Governs(input, g) && r in g.Models() && CatchAll(r) && r.action == ActionDeny
    ensures !Permit(e, provider, model).allowed
  {
    CatchAllHits(r, provider, model);
    PermittedByPolicies(input, e, provider, model);
    assert Forbids(input, g.TierRank(), provider, model);
  }

  /** A governing policy with a catch-all Allow makes its tier let through whatever no Deny of the tier hits. */
  lemma CatchAllAllows(input: ResolveInput, g: Governor, r: ModelPermission, provider: string, model: string)
    requires Governs(input, g) && r in g.Models() && CatchAll(r) && r.action != ActionDeny
    ensures TierLets(input, g.TierRank(), provider, model) <==> !Forbids(input, g.TierRank(), provider, model)
  {
    CatchAllHits(r, provider, model);
    assert Lists(input, g.TierRank(), provider, model);
  }

  // ---- The enumeration ----

  /** Every rule of a tier that does not deny has an entry under its lower-cased names ... */
  lemma EnumeratedByFields(e: Resolved, r: SourcedRule) returns (m: EffectiveModel)
    requires (r in e.cluster.rules || r in e.ns.rules || r in e.wl.rules) && r.rule.action != ActionDeny
    ensures m in EffectiveModels(e) && m.provider == ToLower(r.rule.provider) && m.model == ToLower(r.rule.model)
    ensures m.action == (if Permit(e, r.rule.provider, r.rule.model).allowed then ActionAllow else ActionDeny)
    ensures m.credential == Permit(e, r.rule.provider, r.rule.model).credential
  {
    assert r in AllRules(e) && IsAllow(r);
    var i := EffectiveModelsCover(e, r);
    m := EffectiveModels(e)[i];
  }

  /** ... and every entry is that of such a rule, whose source it carries. */
  lemma EntryByFields(e: Resolved, m: EffectiveModel) returns (r: SourcedRule)
    requires m in EffectiveModels(e)
    ensures (r in e.cluster.rules || r in e.ns.rules || r in e.wl.rules) && r.rule.action != ActionDeny
    ensures m.provider == ToLower(r.rule.provider) && m.model == ToLower(r.rule.model) && m.source == r.source
  {
    var allows := Filter(IsAllow, AllRules(e));
    var at := FirstsOrigin(RuleKey, allows);
    var i :| 0 <= i < |EffectiveModels(e)| && EffectiveModels(e)[i] == m;
    r := allows[at[i]];
    FilterMember(IsAllow, AllRules(e), r);
  }
}
