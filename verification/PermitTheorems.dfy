/** What Permit decides, over every resolved hierarchy and every query. */
module PermitTheorems {
  import opened Wrappers
  import opened Strings
  import opened Sorting
  import opened Api
  import opened Quotas
  import opened Resolver
  import opened ResolverEngine
  import opened ResolverTheorems
  import opened FirstOccurrences

  // ---- A declarative reading of one tier and of the hierarchy ----

  /** No matching Deny, and a matching Allow if the tier has any Allow at all. */
  ghost predicate Admits(rules: seq<SourcedRule>, provider: string, model: string) {
    && (forall r :: r in rules ==> !Denies(r, provider, model))
    && ((exists r :: r in rules && IsAllow(r)) ==> exists r :: r in rules && Grants(r, provider, model))
  }

  /** r is the first rule of the tier for which `holds`. */
  ghost predicate FirstRule(rules: seq<SourcedRule>, holds: SourcedRule -> bool, i: int) {
    0 <= i < |rules| && holds(rules[i]) && forall j :: 0 <= j < i ==> !holds(rules[j])
  }

  lemma {:induction false} FirstDenySearch(rules: seq<SourcedRule>, provider: string, model: string)
    ensures match FirstDeny(rules, provider, model)
            case None => forall r :: r in rules ==> !Denies(r, provider, model)
            case Some(r) => exists i :: FirstRule(rules, s => Denies(s, provider, model), i) && rules[i] == r
  {
    if rules == [] {
    } else {
      FirstDenySearch(rules[1..], provider, model);
      if Denies(rules[0], provider, model) {
        assert FirstRule(rules, s => Denies(s, provider, model), 0);
      } else if FirstDeny(rules[1..], provider, model).Some? {
        var i :| FirstRule(rules[1..], s => Denies(s, provider, model), i)
                 && rules[1..][i] == FirstDeny(rules[1..], provider, model).value;
        assert FirstRule(rules, s => Denies(s, provider, model), i + 1);
      }
    }
  }

  lemma {:induction false} FirstGrantSearch(rules: seq<SourcedRule>, provider: string, model: string)
    ensures match FirstGrant(rules, provider, model)
            case None => forall r :: r in rules ==> !Grants(r, provider, model)
            case Some(r) => exists i :: FirstRule(rules, s => Grants(s, provider, model), i) && rules[i] == r
  {
    if rules == [] {
    } else {
      FirstGrantSearch(rules[1..], provider, model);
      if Grants(rules[0], provider, model) {
        assert FirstRule(rules, s => Grants(s, provider, model), 0);
      } else if FirstGrant(rules[1..], provider, model).Some? {
        var i :| FirstRule(rules[1..], s => Grants(s, provider, model), i)
                 && rules[1..][i] == FirstGrant(rules[1..], provider, model).value;
        assert FirstRule(rules, s => Grants(s, provider, model), i + 1);
      }
    }
  }

  lemma TierDeniesExactly(t: Tier, provider: string, model: string)
    ensures EvalTier(t, provider, model).decision != Deny <==> Admits(t.rules, provider, model)
  {
    FirstDenySearch(t.rules, provider, model);
    FirstGrantSearch(t.rules, provider, model);
  }

  /** Deny wins and omission from an allowlist denies: permitted iff every tier admits. */
  lemma PermitExactly(e: Resolved, provider: string, model: string)
    ensures Permit(e, provider, model).allowed <==>
            Admits(e.cluster.rules, provider, model) && Admits(e.ns.rules, provider, model)
              && Admits(e.wl.rules, provider, model)
  {
    TierDeniesExactly(e.cluster, provider, model);
    TierDeniesExactly(e.ns, provider, model);
    TierDeniesExactly(e.wl, provider, model);
  }

  // ---- Only the normal form of a query matters ----

  lemma {:induction false} SearchesCongruent(rules: seq<SourcedRule>, p: string, m: string, p': string, m': string)
    requires Norm(p) == Norm(p') && Norm(m) == Norm(m')
    ensures FirstDeny(rules, p, m) == FirstDeny(rules, p', m')
    ensures FirstGrant(rules, p, m) == FirstGrant(rules, p', m')
  {
    if rules == [] {
    } else {
      SearchesCongruent(rules[1..], p, m, p', m');
    }
  }

  lemma EvalTierCongruent(t: Tier, p: string, m: string, p': string, m': string)
    requires Norm(p) == Norm(p') && Norm(m) == Norm(m')
    ensures EvalTier(t, p, m) == EvalTier(t, p', m')
  {
    SearchesCongruent(t.rules, p, m, p', m');
  }

  /** Queries with equal normal forms get the same verdict, credential and denier. */
  lemma PermitCongruent(e: Resolved, p: string, m: string, p': string, m': string)
    requires Norm(p) == Norm(p') && Norm(m) == Norm(m')
    ensures Permit(e, p', m') == Permit(e, p, m).(provider := p', model := m')
  {
    EvalTierCongruent(e.cluster, p, m, p', m');
    EvalTierCongruent(e.ns, p, m, p', m');
    EvalTierCongruent(e.wl, p, m, p', m');
  }

  // ---- Narrow, never widen ----

  lemma {:induction false} QuotaPrefix(a: seq<Layer>, b: seq<Layer>)
    ensures AtMost(QuotaOf(a + b), QuotaOf(a))
  {
    if b == [] {
      assert a + b == a;
    } else {
      var n := |b| - 1;
      assert (a + b)[..|a + b| - 1] == a + b[..n];
      QuotaPrefix(a, b[..n]);
      MinQuotaIsMeet(QuotaOf(a + b[..n]), b[n].quota);
      AtMostTransitive(QuotaOf(a + b), QuotaOf(a + b[..n]), QuotaOf(a));
    }
  }

  /**
   Whatever a workload may use, its namespace default may; whatever that may use, the cluster tier alone
   permits. Along the chain each quota window only becomes set or smaller. Resolving the broader scopes
   cannot fail when the narrowest succeeds.
   */
  lemma NarrowNeverWiden(input: ResolveInput, e: Resolved, provider: string, model: string)
    requires Resolve(input) == Ok(e)
    ensures var base := Resolve(input.(identity := NO_IDENTITY));
            var cluster := Resolve(input.(identity := NO_IDENTITY, namespacePolicies := []));
            && base.Ok? && cluster.Ok?
            && (Permit(e, provider, model).allowed ==> Permit(base.value, provider, model).allowed)
            && (Permit(base.value, provider, model).allowed ==> Permit(cluster.value, provider, model).allowed)
            && AtMost(e.quota, base.value.quota) && AtMost(base.value.quota, cluster.value.quota)
  {
    var base, cluster := input.(identity := NO_IDENTITY), input.(identity := NO_IDENTITY, namespacePolicies := []);
    NoIdentityNoWorkloads(NO_IDENTITY, base.namespacePolicies);
    NoIdentityNoWorkloads(NO_IDENTITY, []);
    assert Resolve(base).Ok? && Resolve(cluster).Ok?;
    PermitExactly(e, provider, model);
    PermitExactly(Resolve(base).value, provider, model);
    PermitExactly(Resolve(cluster).value, provider, model);
    var c, n, w := ClusterChain(input), DefaultChain(input), WorkloadChain(input);
    assert DefaultChain(cluster) == [] && WorkloadChain(cluster) == [] && WorkloadChain(base) == [];
    assert c + n + [] == c + n && c + [] + [] == c;
    QuotaPrefix(c + n, w);
    QuotaPrefix(c, n);
  }

  /** What an identity adds to its namespace default is the admission of its own workload tier, no more. */
  lemma WorkloadTierDecides(input: ResolveInput, e: Resolved, provider: string, model: string)
    requires Resolve(input) == Ok(e)
    ensures var base := Resolve(input.(identity := NO_IDENTITY));
            && base.Ok?
            && (Permit(e, provider, model).allowed <==>
                Permit(base.value, provider, model).allowed && Admits(e.wl.rules, provider, model))
  {
    var base := input.(identity := NO_IDENTITY);
    NoIdentityNoWorkloads(NO_IDENTITY, base.namespacePolicies);
    assert WorkloadChain(base) == [] && Resolve(base).Ok?;
    PermitExactly(e, provider, model);
    PermitExactly(Resolve(base).value, provider, model);
  }

  // ---- The exact effect of one more rule ----

  datatype Level = ClusterLevel | NamespaceLevel | WorkloadLevel

  function TierAt(e: Resolved, level: Level): Tier {
    match level case ClusterLevel => e.cluster case NamespaceLevel => e.ns case WorkloadLevel => e.wl
  }

  function InsertAt(rules: seq<SourcedRule>, i: nat, r: SourcedRule): seq<SourcedRule>
    requires i <= |rules|
  {
    rules[..i] + [r] + rules[i..]
  }

  function WithRule(e: Resolved, level: Level, i: nat, r: SourcedRule): Resolved
    requires i <= |TierAt(e, level).rules|
  {
    var t := Tier(TierAt(e, level).name, InsertAt(TierAt(e, level).rules, i, r));
    match level
    case ClusterLevel => e.(cluster := t)
    case NamespaceLevel => e.(ns := t)
    case WorkloadLevel => e.(wl := t)
  }

  ghost predicate OthersAdmit(e: Resolved, level: Level, provider: string, model: string) {
    forall l :: l != level ==> Admits(TierAt(e, l).rules, provider, model)
  }

  lemma AdmitsOneMore(rules: seq<SourcedRule>, i: nat, r: SourcedRule, provider: string, model: string)
    requires i <= |rules|
    ensures var hits := ModelMatches(r.rule, provider, model);
            Admits(InsertAt(rules, i, r), provider, model) <==>
            if !IsAllow(r) then Admits(rules, provider, model) && !hits
            else if forall s :: s in rules ==> !IsAllow(s) then Admits(rules, provider, model) && hits
            else Admits(rules, provider, model) || (hits && forall s :: s in rules ==> !Denies(s, provider, model))
  {
    var more := InsertAt(rules, i, r);
    assert rules == rules[..i] + rules[i..];
    assert forall s :: s in more <==> s == r || s in rules;
    assert r in more;
    if s :| s in rules && IsAllow(s) {
      assert s in more;
    }
    if s :| s in rules && Grants(s, provider, model) {
      assert s in more;
    }
  }

  /**
   One rule more, anywhere in a tier. A Deny removes exactly what it matches. The first Allow of a tier
   keeps exactly what it matches. A further Allow adds exactly what it matches that no Deny of the tier
   hits, and never beyond what the other two tiers admit.
   */
  lemma OneMoreRule(e: Resolved, level: Level, i: nat, r: SourcedRule, provider: string, model: string)
    requires i <= |TierAt(e, level).rules|
    ensures var before, after :=
              Permit(e, provider, model).allowed, Permit(WithRule(e, level, i, r), provider, model).allowed;
            var hits := ModelMatches(r.rule, provider, model);
            var rules := TierAt(e, level).rules;
            if !IsAllow(r) then after <==> before && !hits
            else if forall s :: s in rules ==> !IsAllow(s) then after <==> before && hits
            else after <==> before || (hits && (forall s :: s in rules ==> !Denies(s, provider, model))
                                       && OthersAdmit(e, level, provider, model))
  {
    AdmitsOneMore(TierAt(e, level).rules, i, r, provider, model);
    PermitExactly(e, provider, model);
    PermitExactly(WithRule(e, level, i, r), provider, model);
    match level { case ClusterLevel => case NamespaceLevel => case WorkloadLevel => }
    assert TierAt(e, ClusterLevel) == e.cluster && TierAt(e, NamespaceLevel) == e.ns
           && TierAt(e, WorkloadLevel) == e.wl;
  }

  // ---- Credential and denier ----

  /** The credential a tier names for a query: that of its first matching Allow, "" when that names none. */
  ghost predicate TierNames(t: Tier, provider: string, model: string, credential: string) {
    exists i :: FirstRule(t.rules, s => Grants(s, provider, model), i)
                && t.rules[i].rule.credentialRef == Some(credential) && credential != ""
  }

  lemma TierCredential(t: Tier, provider: string, model: string)
    requires Admits(t.rules, provider, model)
    ensures var v := EvalTier(t, provider, model);
            && v.decision != Deny
            && (forall c :: TierNames(t, provider, model, c) ==> v.decision == Allow && v.credential == c)
            && (v.credential != "" ==> v.decision == Allow && TierNames(t, provider, model, v.credential))
  {
    TierDeniesExactly(t, provider, model);
    FirstDenySearch(t.rules, provider, model);
    FirstGrantSearch(t.rules, provider, model);
    var holds := s => Grants(s, provider, model);
    forall i, j | FirstRule(t.rules, holds, i) && FirstRule(t.rules, holds, j) ensures i == j {
    }
  }

  /** The credential comes from the narrowest tier whose first matching Allow names one, else the default. */
  lemma CredentialFromNarrowestTier(e: Resolved, provider: string, model: string)
    requires Permit(e, provider, model).allowed
    ensures var c := Permit(e, provider, model).credential;
            var names := (t: Tier) => exists x :: TierNames(t, provider, model, x);
            if names(e.wl) then TierNames(e.wl, provider, model, c)
            else if names(e.ns) then TierNames(e.ns, provider, model, c)
            else if names(e.cluster) then TierNames(e.cluster, provider, model, c)
            else c == e.defaultCredential
  {
    PermitExactly(e, provider, model);
    TierCredential(e.wl, provider, model);
    TierCredential(e.ns, provider, model);
    TierCredential(e.cluster, provider, model);
  }

  /** The rule names a credential for the query. */
  ghost predicate NamesCredential(r: SourcedRule, provider: string, model: string) {
    Grants(r, provider, model) && CredentialName(r.rule.credentialRef) != ""
  }

  ghost predicate SomeNames(t: Tier, provider: string, model: string) {
    exists r :: r in t.rules && NamesCredential(r, provider, model)
  }

  /** As documented: the first naming rule of the narrowest tier with a matching Allow that names a credential. */
  ghost predicate DocumentedSupplier(e: Resolved, provider: string, model: string, level: Level, i: int) {
    && FirstRule(TierAt(e, level).rules, s => NamesCredential(s, provider, model), i)
    && (level != WorkloadLevel ==> !SomeNames(e.wl, provider, model))
    && (level == ClusterLevel ==> !SomeNames(e.ns, provider, model))
  }

  /** A broader tier's first matching Allow names this credential, or it is the default. */
  ghost predicate FromBroader(e: Resolved, provider: string, model: string, level: Level, credential: string) {
    || (level == WorkloadLevel && TierNames(e.ns, provider, model, credential))
    || (level != ClusterLevel && TierNames(e.cluster, provider, model, credential))
    || credential == e.defaultCredential
  }

  lemma NamesFirst(t: Tier, provider: string, model: string, credential: string)
    requires TierNames(t, provider, model, credential)
    ensures SomeNames(t, provider, model)
  {
    var i :| FirstRule(t.rules, s => Grants(s, provider, model), i)
             && t.rules[i].rule.credentialRef == Some(credential) && credential != "";
    assert NamesCredential(t.rules[i], provider, model);
  }

  lemma DocumentedTierNames(t: Tier, provider: string, model: string, i: int)
    requires FirstRule(t.rules, s => NamesCredential(s, provider, model), i)
    ensures FirstRule(t.rules, s => Grants(s, provider, model), i) ==>
              TierNames(t, provider, model, t.rules[i].rule.credentialRef.value)
    ensures (exists c :: TierNames(t, provider, model, c)) ==> FirstRule(t.rules, s => Grants(s, provider, model), i)
  {
    if c :| TierNames(t, provider, model, c) {
      var k :| FirstRule(t.rules, s => Grants(s, provider, model), k) && t.rules[k].rule.credentialRef == Some(c)
        && c != "";
      assert NamesCredential(t.rules[k], provider, model);
      assert k == i;
    }
  }

  /**
   The documented rule, that the most specific Allow naming a credential wins, is what Permit does exactly
   when no Allow in front of that one in its tier matches: otherwise the tier is passed over altogether and
   the credential is that of a broader tier or the default.
   */
  lemma MostSpecificNamingAllowExactly(e: Resolved, provider: string, model: string, level: Level, i: int)
    requires Permit(e, provider, model).allowed && DocumentedSupplier(e, provider, model, level, i)
    ensures var rules, c := TierAt(e, level).rules, Permit(e, provider, model).credential;
            if FirstRule(rules, s => Grants(s, provider, model), i)
            then rules[i].rule.credentialRef == Some(c) else FromBroader(e, provider, model, level, c)
  {
    CredentialFromNarrowestTier(e, provider, model);
    DocumentedTierNames(TierAt(e, level), provider, model, i);
    if c :| TierNames(e.wl, provider, model, c) {
      NamesFirst(e.wl, provider, model, c);
    }
    if c :| TierNames(e.ns, provider, model, c) {
      NamesFirst(e.ns, provider, model, c);
    }
    if FirstRule(TierAt(e, level).rules, s => Grants(s, provider, model), i) {
      OneNameOnly(TierAt(e, level), provider, model);
    }
  }

  lemma OneNameOnly(t: Tier, provider: string, model: string)
    ensures forall c, d :: TierNames(t, provider, model, c) && TierNames(t, provider, model, d) ==> c == d
  {
    var holds := s => Grants(s, provider, model);
    forall i, j | FirstRule(t.rules, holds, i) && FirstRule(t.rules, holds, j) ensures i == j {
    }
  }

  /** Where no matching Allow names a credential, the default is used, as documented. */
  lemma DefaultCredentialOtherwise(e: Resolved, provider: string, model: string)
    requires Permit(e, provider, model).allowed
    requires !SomeNames(e.wl, provider, model) && !SomeNames(e.ns, provider, model)
             && !SomeNames(e.cluster, provider, model)
    ensures Permit(e, provider, model).credential == e.defaultCredential
  {
    CredentialFromNarrowestTier(e, provider, model);
    forall t, c | t in {e.wl, e.ns, e.cluster} && TierNames(t, provider, model, c) ensures false {
      NamesFirst(t, provider, model, c);
    }
  }

  /** Which layer a rule of a tier comes from, and where that layer's rules begin. */
  lemma {:induction false} RuleLayer(layers: seq<Layer>, i: nat) returns (k: nat)
    requires i < |Rules(layers)|
    ensures k < |layers| && |Rules(layers[..k])| <= i
            && Rules(layers)[i] in SourceAll(layers[k].models, layers[k].source)
  {
    var n := |layers| - 1;
    if i < |Rules(layers[..n])| {
      k := RuleLayer(layers[..n], i);
      assert layers[..n][..k] == layers[..k];
    } else {
      k := n;
    }
  }

  lemma {:induction false} RulesPrefix(layers: seq<Layer>, k: nat)
    requires k <= |layers|
    ensures Rules(layers[..k]) <= Rules(layers)
  {
    if k == |layers| {
      assert layers[..k] == layers;
    } else {
      assert layers[..|layers| - 1][..k] == layers[..k];
      RulesPrefix(layers[..|layers| - 1], k);
    }
  }

  lemma LayerRulesListed(layers: seq<Layer>, j: nat, k: nat, r: SourcedRule)
    requires j < k <= |layers| && r in SourceAll(layers[j].models, layers[j].source)
    ensures r in Rules(layers[..k])
  {
    assert layers[..k][..j + 1] == layers[..j + 1];
    assert layers[..j + 1][..j] == layers[..j];
    RulesPrefix(layers[..k], j + 1);
    assert r in Rules(layers[..j + 1]);
  }

  function RulesOf(p: TokenPolicy): seq<SourcedRule> { SourceAll(p.models, PolicySource(p.namespace, p.name)) }

  /** The policy has a matching Allow. */
  ghost predicate Offers(p: TokenPolicy, provider: string, model: string) {
    exists r :: r in RulesOf(p) && Grants(r, provider, model)
  }

  /**
   The credential of a namespace or workload tier comes from the lowest (priority, name) among the policies
   with a matching Allow, not from the highest priority as the API documents for overlapping policies.
   */
  lemma CredentialFromLowestPriority(ps: seq<TokenPolicy>, provider: string, model: string, i: int) returns (k: nat)
    requires Ordered(PolicyKey, ps)
    requires FirstRule(Rules(PolicyLayersOf(ps)), s => Grants(s, provider, model), i)
    ensures k < |ps| && Rules(PolicyLayersOf(ps))[i] in RulesOf(ps[k]) && Offers(ps[k], provider, model)
    ensures forall j :: 0 <= j < |ps| && Offers(ps[j], provider, model) ==> !KeyLess(PolicyKey(ps[j]), PolicyKey(ps[k]))
  {
    var layers := PolicyLayersOf(ps);
    k := RuleLayer(layers, i);
    RulesPrefix(layers, k);
    var earlier := Rules(layers[..k]);
    assert forall x :: 0 <= x < |earlier| ==> earlier[x] == Rules(layers)[x];
    assert forall r :: r in earlier ==> !Grants(r, provider, model);
    forall j | 0 <= j < |ps| && Offers(ps[j], provider, model)
      ensures !KeyLess(PolicyKey(ps[j]), PolicyKey(ps[k]))
    {
      var r :| r in RulesOf(ps[j]) && Grants(r, provider, model);
      if j < k {
        LayerRulesListed(layers, j, k, r);
      } else if j == k {
        KeyLessOrder(PolicyKey(ps[j]), PolicyKey(ps[k]), PolicyKey(ps[k]));
      }
    }
  }

  /**
   The documented rule, that the highest priority wins, holds of the policy that supplies the credential
   exactly when all policies with a matching Allow have one priority; and it is last in the documented order
   by priority and name exactly when it is the only one.
   */
  lemma HighestPriorityWinsExactly(ps: seq<TokenPolicy>, provider: string, model: string, i: int) returns (k: nat)
    requires Ordered(PolicyKey, ps) && DistinctPolicyNames(ps)
    requires FirstRule(Rules(PolicyLayersOf(ps)), s => Grants(s, provider, model), i)
    ensures k < |ps| && Rules(PolicyLayersOf(ps))[i] in RulesOf(ps[k]) && Offers(ps[k], provider, model)
    ensures (forall j :: 0 <= j < |ps| && Offers(ps[j], provider, model) ==> ps[j].priority <= ps[k].priority) <==>
            (forall j, l :: 0 <= j < |ps| && 0 <= l < |ps|
                            && Offers(ps[j], provider, model) && Offers(ps[l], provider, model) ==>
               ps[j].priority == ps[l].priority)
    ensures (forall j :: 0 <= j < |ps| && Offers(ps[j], provider, model) ==>
             !KeyLess(PolicyKey(ps[k]), PolicyKey(ps[j]))) <==>
            (forall j :: 0 <= j < |ps| && Offers(ps[j], provider, model) ==> j == k)
  {
    k := CredentialFromLowestPriority(ps, provider, model, i);
    forall j | 0 <= j < |ps| && Offers(ps[j], provider, model)
      ensures ps[k].priority <= ps[j].priority
      ensures j != k ==> KeyLess(PolicyKey(ps[k]), PolicyKey(ps[j]))
    {
      KeyLessOrder(PolicyKey(ps[j]), PolicyKey(ps[k]), PolicyKey(ps[k]));
    }
    KeyLessOrder(PolicyKey(ps[k]), PolicyKey(ps[k]), PolicyKey(ps[k]));
  }

  lemma {:induction false} RuleSource(layers: seq<Layer>, r: SourcedRule)
    requires r in Rules(layers)
    ensures exists l :: l in layers && l.Contributes() && l.source == r.source
  {
    var n := |layers| - 1;
    if r in Rules(layers[..n]) {
      RuleSource(layers[..n], r);
    } else {
      assert r in SourceAll(layers[n].models, layers[n].source);
      assert layers[n] in layers;
    }
  }

  /** Every rule of a resolution comes from a policy listed in its Sources. */
  lemma RuleSourceListed(input: ResolveInput, e: Resolved, level: Level, r: SourcedRule)
    requires Resolve(input) == Ok(e) && r in TierAt(e, level).rules
    ensures r.source in e.sources
  {
    var layers := match level
                  case ClusterLevel => ClusterChain(input)
                  case NamespaceLevel => DefaultChain(input)
                  case WorkloadLevel => WorkloadChain(input);
    RuleSource(layers, r);
    var l :| l in layers && l.Contributes() && l.source == r.source;
    ChainMember(input, l);
    SourcesExact(input, e);
  }

  /** The narrowest tier that does not admit the query. */
  ghost predicate NarrowestDenier(e: Resolved, provider: string, model: string, level: Level) {
    && !Admits(TierAt(e, level).rules, provider, model)
    && (level != WorkloadLevel ==> Admits(e.wl.rules, provider, model))
    && (level == ClusterLevel ==> Admits(e.ns.rules, provider, model))
  }

  /**
   A refusal names the narrowest denying tier: the source of that tier's first matching Deny, or else its
   allowlist.
   */
  lemma DenialNamesNarrowest(e: Resolved, provider: string, model: string) returns (level: Level)
    requires !Permit(e, provider, model).allowed
    ensures NarrowestDenier(e, provider, model, level)
    ensures var t, denier := TierAt(e, level), Permit(e, provider, model).deniedBy;
            if exists r :: r in t.rules && Denies(r, provider, model)
            then exists i :: FirstRule(t.rules, s => Denies(s, provider, model), i) && denier == t.rules[i].source
            else denier == t.name + " allowlist"
  {
    PermitExactly(e, provider, model);
    TierDeniesExactly(e.wl, provider, model);
    TierDeniesExactly(e.ns, provider, model);
    TierDeniesExactly(e.cluster, provider, model);
    level := if !Admits(e.wl.rules, provider, model) then WorkloadLevel
             else if !Admits(e.ns.rules, provider, model) then NamespaceLevel else ClusterLevel;
    FirstDenySearch(TierAt(e, level).rules, provider, model);
    assert Permit(e, provider, model).deniedBy == EvalTier(TierAt(e, level), provider, model).source;
  }

  /**
   When the narrowest denying tier has a matching Deny, the denier is one of the resolution's Sources;
   otherwise it is that tier's allowlist.
   */
  lemma DenialEvidenceListed(input: ResolveInput, e: Resolved, provider: string, model: string) returns (level: Level)
    requires Resolve(input) == Ok(e) && !Permit(e, provider, model).allowed
    ensures NarrowestDenier(e, provider, model, level)
    ensures var t, denier := TierAt(e, level), Permit(e, provider, model).deniedBy;
            if exists r :: r in t.rules && Denies(r, provider, model)
            then denier in e.sources else denier == t.name + " allowlist"
  {
    level := DenialNamesNarrowest(e, provider, model);
    var t := TierAt(e, level);
    if exists r :: r in t.rules && Denies(r, provider, model) {
      var i :| FirstRule(t.rules, s => Denies(s, provider, model), i)
        && Permit(e, provider, model).deniedBy == t.rules[i].source;
      RuleSourceListed(input, e, level, t.rules[i]);
    }
  }

  // ---- EffectiveModels ----

  function EntryKey(m: EffectiveModel): ModelKey { ModelKey(m.provider, m.model) }

  /** The enumeration lists no key twice. */
  lemma EffectiveModelsDistinct(e: Resolved)
    ensures forall i, j :: 0 <= i < j < |EffectiveModels(e)| ==>
            EntryKey(EffectiveModels(e)[i]) != EntryKey(EffectiveModels(e)[j])
  {
    FirstsDistinct(RuleKey, Filter(IsAllow, AllRules(e)));
  }

  /**
   Every Allow rule of every tier has an entry under its lower-cased key, carrying Permit's verdict on the
   rule's own provider and model and the source of the first Allow rule with that key.
   */
  lemma EffectiveModelsCover(e: Resolved, r: SourcedRule) returns (i: nat)
    requires r in AllRules(e) && IsAllow(r)
    ensures i < |EffectiveModels(e)|
    ensures var m, d := EffectiveModels(e)[i], Permit(e, r.rule.provider, r.rule.model);
            && EntryKey(m) == RuleKey(r)
            && (m.action == ActionAllow <==> d.allowed) && m.credential == d.credential
            && exists f :: FirstRule(AllRules(e), s => IsAllow(s) && RuleKey(s) == RuleKey(r), f)
                           && m.source == AllRules(e)[f].source
  {
    var rules, allows := AllRules(e), Filter(IsAllow, AllRules(e));
    FilterMember(IsAllow, rules, r);
    var k :| 0 <= k < |allows| && allows[k] == r;
    var f := FirstsCover(RuleKey, allows, k);
    i :| 0 <= i < |FirstAllows(rules)| && FirstAllows(rules)[i] == allows[f];
    FirstAllowIsFirstRule(rules, f);
    NormAbsorbs(r.rule.provider);
    NormAbsorbs(r.rule.model);
    PermitCongruent(e, r.rule.provider, r.rule.model, ToLower(r.rule.provider), ToLower(r.rule.model));
  }

  lemma {:induction false} FirstAllowIsFirstRule(rules: seq<SourcedRule>, f: nat)
    requires f < |Filter(IsAllow, rules)| && IsFirst(RuleKey, Filter(IsAllow, rules), f)
    ensures var r := Filter(IsAllow, rules)[f];
            exists i :: FirstRule(rules, s => IsAllow(s) && RuleKey(s) == RuleKey(r), i) && rules[i] == r
  {
    var n := |rules| - 1;
    var front, allows := Filter(IsAllow, rules[..n]), Filter(IsAllow, rules);
    var holds := s => IsAllow(s) && RuleKey(s) == RuleKey(allows[f]);
    assert forall j :: 0 <= j < |front| ==> allows[j] == front[j];
    if f < |front| {
      FirstAllowIsFirstRule(rules[..n], f);
      var i :| FirstRule(rules[..n], s => IsAllow(s) && RuleKey(s) == RuleKey(front[f]), i)
        && rules[..n][i] == front[f];
      assert FirstRule(rules, holds, i);
    } else {
      forall j | 0 <= j < n ensures !holds(rules[j]) {
        assert rules[j] in rules[..n];
        FilterMember(IsAllow, rules[..n], rules[j]);
        if IsAllow(rules[j]) {
          var k :| 0 <= k < |front| && front[k] == rules[j];
          assert RuleKey(allows[k]) != RuleKey(allows[f]);
        }
      }
      assert FirstRule(rules, holds, n);
    }
  }
}
