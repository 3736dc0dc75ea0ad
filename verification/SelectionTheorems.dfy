/**
 Which policies govern a scope and what the resolution takes from them, read off the objects' own fields:
 an independent account of selectors, tiers and precedence, and the proof that Resolve agrees with it.
 */
module SelectionTheorems {
  import opened Wrappers
  import opened Strings
  import opened Sorting
  import opened Api
  import opened Quotas
  import opened Resolver
  import opened ResolverTheorems

  // ---- What a label selector asks for ----

  ghost predicate RequirementParses(r: Requirement) {
    match r.operator
    case In => |r.values| > 0
    case NotIn => |r.values| > 0
    case Exists => |r.values| == 0
    case DoesNotExist => |r.values| == 0
    case UnknownOperator(_) => false
  }

  ghost predicate RequirementMet(r: Requirement, labels: Labels) {
    match r.operator
    case In => exists v :: v in r.values && (r.key, v) in labels.Items
    case NotIn => forall v :: v in r.values ==> (r.key, v) !in labels.Items
    case Exists => exists v :: (r.key, v) in labels.Items
    case DoesNotExist => forall v :: (r.key, v) !in labels.Items
    case UnknownOperator(_) => false
  }

  ghost predicate Parses(sel: LabelSelector) {
    forall r :: r in sel.matchExpressions ==> RequirementParses(r)
  }

  /** Every listed pair is among the labels, and every expression is met. */
  ghost predicate Met(sel: LabelSelector, labels: Labels) {
    sel.matchLabels.Items <= labels.Items && forall r :: r in sel.matchExpressions ==> RequirementMet(r, labels)
  }

  ghost predicate ParsesIfAny(sel: Option<LabelSelector>) { sel.Some? ==> Parses(sel.value) }

  ghost predicate MetIfAny(sel: Option<LabelSelector>, labels: Labels) { sel.Some? ==> Met(sel.value, labels) }

  lemma RequirementExactly(r: Requirement, labels: Labels)
    ensures !Malformed(r) <==> RequirementParses(r)
    ensures RequirementParses(r) ==> (RequirementHolds(r, labels) <==> RequirementMet(r, labels))
  {
    if r.key in labels {
      assert (r.key, labels[r.key]) in labels.Items;
    }
  }

  /** A selector fails exactly if an expression does not parse, and otherwise answers what it asks for. */
  lemma SelectorExactly(sel: Option<LabelSelector>, labels: Labels)
    ensures SelectorMatches(sel, labels)
         == if ParsesIfAny(sel) then Ok(MetIfAny(sel, labels)) else Err(SelectorError)
  {
    if sel.Some? {
      var s := sel.value;
      forall i | 0 <= i < |s.matchExpressions|
        ensures !Malformed(s.matchExpressions[i]) <==> RequirementParses(s.matchExpressions[i])
        ensures RequirementParses(s.matchExpressions[i]) ==>
                  (RequirementHolds(s.matchExpressions[i], labels) <==> RequirementMet(s.matchExpressions[i], labels))
      {
        RequirementExactly(s.matchExpressions[i], labels);
      }
      assert forall k :: k in s.matchLabels ==> (k, s.matchLabels[k]) in s.matchLabels.Items;
      assert s.matchLabels.Items <= labels.Items <==>
             forall k :: k in s.matchLabels ==> k in labels && labels[k] == s.matchLabels[k] by {
        if forall k :: k in s.matchLabels ==> k in labels && labels[k] == s.matchLabels[k] {
          forall kv | kv in s.matchLabels.Items ensures kv in labels.Items {
            assert kv.0 in s.matchLabels;
          }
        }
      }
    }
  }

  // ---- What a workload selector asks for ----

  /** The selector names an account or constrains labels; one that does neither is the namespace default's. */
  ghost predicate Narrows(sel: Option<WorkloadSelector>) {
    && sel.Some?
    && (|sel.value.serviceAccounts| > 0
        || (sel.value.podSelector.Some?
            && (|sel.value.podSelector.value.matchLabels| > 0 || |sel.value.podSelector.value.matchExpressions| > 0)))
  }

  ghost predicate AccountFits(sel: WorkloadSelector, account: string) {
    |sel.serviceAccounts| == 0 || account in sel.serviceAccounts
  }

  lemma NarrowsExactly(sel: Option<WorkloadSelector>)
    ensures Narrows(sel) <==> !IsEmpty(sel)
  {
    if sel.Some? && sel.value.podSelector.Some? {
      var m := sel.value.podSelector.value.matchLabels;
      assert |m| > 0 <==> m != map[];
    }
  }

  /** The pod selector is reached, and can fail, only for a fitting account. */
  lemma WorkloadSelectorExactly(sel: Option<WorkloadSelector>, labels: Labels, account: string)
    ensures WorkloadMatches(sel, labels, account)
         == if sel == None then Ok(true)
            else if !AccountFits(sel.value, account) then Ok(false)
            else if !ParsesIfAny(sel.value.podSelector) then Err(SelectorError)
            else Ok(MetIfAny(sel.value.podSelector, labels))
  {
    if sel.Some? {
      SelectorExactly(sel.value.podSelector, labels);
    }
  }

  // ---- Which policies govern ----

  ghost predicate SomeWorkload(id: Identity) { id.podLabels.Some? || id.serviceAccount != "" }

  ghost predicate ClusterGoverns(p: ClusterTokenPolicy, nsLabels: Labels) {
    ParsesIfAny(p.namespaceSelector) && MetIfAny(p.namespaceSelector, nsLabels)
  }

  ghost predicate WorkloadGoverns(p: TokenPolicy, id: Identity) {
    && SomeWorkload(id) && Narrows(p.selector) && AccountFits(p.selector.value, id.serviceAccount)
    && ParsesIfAny(p.selector.value.podSelector)
    && MetIfAny(p.selector.value.podSelector, if id.podLabels.Some? then id.podLabels.value else map[])
  }

  /** A policy whose selector an identity reaches and cannot be parsed. */
  ghost predicate WorkloadBreaks(p: TokenPolicy, id: Identity) {
    && SomeWorkload(id) && Narrows(p.selector) && AccountFits(p.selector.value, id.serviceAccount)
    && !ParsesIfAny(p.selector.value.podSelector)
  }

  lemma ClusterGovernsExactly(p: ClusterTokenPolicy, nsLabels: Labels)
    ensures ClusterApplies(nsLabels)(p) <==> ClusterGoverns(p, nsLabels)
    ensures ClusterFault(nsLabels)(p)
         == if ParsesIfAny(p.namespaceSelector) then None else Some(BadNamespaceSelector(p.name))
  {
    SelectorExactly(p.namespaceSelector, nsLabels);
  }

  lemma WorkloadGovernsExactly(p: TokenPolicy, id: Identity)
    ensures WorkloadApplies(id)(p) <==> WorkloadGoverns(p, id)
    ensures WorkloadFault(id)(p) == if WorkloadBreaks(p, id) then Some(BadWorkloadSelector(p.namespace, p.name))
            else None
  {
    NarrowsExactly(p.selector);
    WorkloadSelectorExactly(p.selector, if id.podLabels.Some? then id.podLabels.value else map[], id.serviceAccount);
  }

  /** The three tiers hold exactly these policies of the lists. */
  lemma TiersExactly(input: ResolveInput, c: ClusterTokenPolicy, p: TokenPolicy)
    ensures c in ClusterMatched(input) <==> c in input.clusterPolicies && ClusterGoverns(c, input.namespaceLabels)
    ensures p in DefaultsMatched(input) <==> p in input.namespacePolicies && !Narrows(p.selector)
    ensures p in WorkloadMatched(input) <==> p in input.namespacePolicies && WorkloadGoverns(p, input.identity)
  {
    SortedFilterMember(ClusterKey, ClusterApplies(input.namespaceLabels), input.clusterPolicies, c);
    SortedFilterMember(PolicyKey, IsNamespaceDefault, input.namespacePolicies, p);
    SortedFilterMember(PolicyKey, WorkloadApplies(input.identity), input.namespacePolicies, p);
    ClusterGovernsExactly(c, input.namespaceLabels);
    WorkloadGovernsExactly(p, input.identity);
    NarrowsExactly(p.selector);
  }

  lemma {:induction false} FaultIsFirst<T>(fault: T -> Option<ResolveError>, s: seq<T>)
    ensures FirstFault(fault, s).Some? ==>
              exists i :: 0 <= i < |s| && fault(s[i]) == FirstFault(fault, s) && forall j :: 0 <= j < i ==>
                fault(s[j]) == None
    ensures FirstFault(fault, s) == None ==> forall i :: 0 <= i < |s| ==> fault(s[i]) == None
  {
    FaultFree(fault, s);
    if s == [] {
    } else {
      var n := |s| - 1;
      FaultIsFirst(fault, s[..n]);
      FaultFree(fault, s[..n]);
      if FirstFault(fault, s[..n]).Some? {
        var i :| 0 <= i < n && fault(s[..n][i]) == FirstFault(fault, s[..n]) && forall j :: 0 <= j < i ==>
          fault(s[..n][j]) == None;
        assert fault(s[i]) == FirstFault(fault, s);
      }
    }
  }

  ghost predicate FirstBrokenCluster(cps: seq<ClusterTokenPolicy>, i: int) {
    0 <= i < |cps| && !ParsesIfAny(cps[i].namespaceSelector) && forall j :: 0 <= j < i ==>
      ParsesIfAny(cps[j].namespaceSelector)
  }

  ghost predicate FirstBrokenWorkload(tps: seq<TokenPolicy>, id: Identity, i: int) {
    0 <= i < |tps| && WorkloadBreaks(tps[i], id) && forall j :: 0 <= j < i ==> !WorkloadBreaks(tps[j], id)
  }

  /**
   Resolve fails exactly if some cluster policy's selector does not parse, or that of a workload policy the
   identity's account fits; the error names the first such cluster policy of the list, or else the first such
   workload policy.
   */
  lemma ResolveFailsExactly(input: ResolveInput)
    ensures Resolve(input).Err? <==>
            || (exists p :: p in input.clusterPolicies && !ParsesIfAny(p.namespaceSelector))
            || (exists p :: p in input.namespacePolicies && WorkloadBreaks(p, input.identity))
    ensures Resolve(input).Err? ==>
              if exists p :: p in input.clusterPolicies && !ParsesIfAny(p.namespaceSelector)
              then exists i :: FirstBrokenCluster(input.clusterPolicies, i)
                               && Resolve(input).error == BadNamespaceSelector(input.clusterPolicies[i].name)
              else exists i :: FirstBrokenWorkload(input.namespacePolicies, input.identity, i)
                               && Resolve(input).error == BadWorkloadSelector(input.namespacePolicies[i].namespace,
                                                                              input.namespacePolicies[i].name)
  {
    ClusterFaultExactly(input.clusterPolicies, input.namespaceLabels);
    WorkloadFaultExactly(input.namespacePolicies, input.identity);
  }

  lemma ClusterFaultExactly(cps: seq<ClusterTokenPolicy>, nsLabels: Labels)
    ensures var fault := FirstFault(ClusterFault(nsLabels), cps);
            && (fault.Some? <==> exists p :: p in cps && !ParsesIfAny(p.namespaceSelector))
            && (fault.Some? ==>
                exists i :: FirstBrokenCluster(cps, i) && fault.value == BadNamespaceSelector(cps[i].name))
  {
    var f := ClusterFault(nsLabels);
    forall p: ClusterTokenPolicy
      ensures f(p) == if ParsesIfAny(p.namespaceSelector) then None else Some(BadNamespaceSelector(p.name))
    {
      ClusterGovernsExactly(p, nsLabels);
    }
    FaultIsFirst(f, cps);
    if FirstFault(f, cps).Some? {
      var i :| 0 <= i < |cps| && f(cps[i]) == FirstFault(f, cps) && forall j :: 0 <= j < i ==> f(cps[j]) == None;
      assert FirstBrokenCluster(cps, i);
    }
  }

  lemma WorkloadFaultExactly(tps: seq<TokenPolicy>, id: Identity)
    ensures var fault := FirstFault(WorkloadFault(id), tps);
            && (fault.Some? <==> exists p :: p in tps && WorkloadBreaks(p, id))
            && (fault.Some? ==> exists i :: FirstBrokenWorkload(tps, id, i)
                                            && fault.value == BadWorkloadSelector(tps[i].namespace, tps[i].name))
  {
    var f := WorkloadFault(id);
    forall p: TokenPolicy
      ensures f(p) == if WorkloadBreaks(p, id) then Some(BadWorkloadSelector(p.namespace, p.name)) else None
    {
      WorkloadGovernsExactly(p, id);
    }
    FaultIsFirst(f, tps);
    if FirstFault(f, tps).Some? {
      var i :| 0 <= i < |tps| && f(tps[i]) == FirstFault(f, tps) && forall j :: 0 <= j < i ==> f(tps[j]) == None;
      assert FirstBrokenWorkload(tps, id, i);
    }
  }

  // ---- What the resolution takes from them ----

  /** A policy in the part it plays. */
  datatype Governor =
    | InCluster(cluster: ClusterTokenPolicy)
    | AsDefault(policy: TokenPolicy)
    | ForWorkload(policy: TokenPolicy)
  {
    ghost function Models(): seq<ModelPermission> { if InCluster? then cluster.models else policy.models }
    ghost function Quota(): Option<TokenQuota> { if InCluster? then cluster.quota else policy.quota }
    ghost function Mode(): EnforcementMode { if InCluster? then cluster.enforcement else policy.enforcement }
    ghost function Gateway(): Option<GatewayIntegration> { if InCluster? then cluster.gateway else policy.gateway }
    ghost function Source(): string {
      if InCluster? then "ClusterTokenPolicy/" + cluster.name
      else "TokenPolicy/" + policy.namespace + "/" + policy.name
    }
    ghost function TierRank(): int { if InCluster? then 0 else if AsDefault? then 1 else 2 }
    ghost function Priority(): int { if InCluster? then 0 else policy.priority }
    ghost function Name(): string { if InCluster? then cluster.name else policy.name }

    /** Narrower tier, then higher priority, then later name. */
    ghost predicate Outranks(g: Governor) {
      || TierRank() > g.TierRank()
      || (TierRank() == g.TierRank()
          && (Priority() > g.Priority() || (Priority() == g.Priority() && StrLess(g.Name(), Name()))))
    }
  }

  ghost predicate Governs(input: ResolveInput, g: Governor) {
    match g
    case InCluster(p) => p in input.clusterPolicies && ClusterGoverns(p, input.namespaceLabels)
    case AsDefault(p) => p in input.namespacePolicies && !Narrows(p.selector)
    case ForWorkload(p) => p in input.namespacePolicies && WorkloadGoverns(p, input.identity)
  }

  ghost function LayerOf(g: Governor): Layer {
    match g
    case InCluster(p) => ClusterLayer(p)
    case AsDefault(p) => PolicyLayer(p)
    case ForWorkload(p) => PolicyLayer(p)
  }

  lemma LayerReads(g: Governor)
    ensures var l := LayerOf(g);
            && l.models == g.Models() && l.quota == g.Quota() && l.enforcement == g.Mode() && l.gateway == g.Gateway()
            && l.source == g.Source()
            && l.defaultCredential == (if g.InCluster? then g.cluster.defaultCredentialRef else None)
  {
  }

  /** The governor at a place of the chain. */
  ghost function GovernorAt(input: ResolveInput, i: int): Governor
    requires 0 <= i < |Chain(input)|
  {
    var c, d := |ClusterMatched(input)|, |DefaultsMatched(input)|;
    if i < c then InCluster(ClusterMatched(input)[i])
    else if i < c + d then AsDefault(DefaultsMatched(input)[i - c])
    else ForWorkload(WorkloadMatched(input)[i - c - d])
  }

  lemma GovernorOfLayer(input: ResolveInput, i: int)
    requires 0 <= i < |Chain(input)|
    ensures Chain(input)[i] == LayerOf(GovernorAt(input, i)) && Governs(input, GovernorAt(input, i))
  {
    var c, d := |ClusterMatched(input)|, |DefaultsMatched(input)|;
    assert |Chain(input)| == c + d + |WorkloadMatched(input)|;
    match GovernorAt(input, i) {
      case InCluster(p) =>
        assert p in ClusterMatched(input);
        TiersExactly(input, p, ArbitraryPolicy());
      case AsDefault(p) =>
        assert p in DefaultsMatched(input);
        TiersExactly(input, ArbitraryCluster(), p);
      case ForWorkload(p) =>
        assert p in WorkloadMatched(input);
        TiersExactly(input, ArbitraryCluster(), p);
    }
  }

  ghost function ArbitraryPolicy(): TokenPolicy { TokenPolicy("", "", None, [], None, EnforcementUnset, 0, None) }

  ghost function ArbitraryCluster(): ClusterTokenPolicy {
    ClusterTokenPolicy("", None, [], None, EnforcementUnset, None, None)
  }

  lemma PlaceOfGovernor(input: ResolveInput, g: Governor) returns (i: int)
    requires Governs(input, g)
    ensures 0 <= i < |Chain(input)| && GovernorAt(input, i) == g
  {
    var c, d := |ClusterMatched(input)|, |DefaultsMatched(input)|;
    assert |Chain(input)| == c + d + |WorkloadMatched(input)|;
    match g {
      case InCluster(p) =>
        TiersExactly(input, p, ArbitraryPolicy());
        i :| 0 <= i < c && ClusterMatched(input)[i] == p;
      case AsDefault(p) =>
        TiersExactly(input, ArbitraryCluster(), p);
        var j :| 0 <= j < d && DefaultsMatched(input)[j] == p;
        i := c + j;
      case ForWorkload(p) =>
        TiersExactly(input, ArbitraryCluster(), p);
        var j :| 0 <= j < |WorkloadMatched(input)| && WorkloadMatched(input)[j] == p;
        i := c + d + j;
    }
  }

  lemma LaterOutranks(input: ResolveInput, i: int, j: int)
    requires 0 <= i < j < |Chain(input)|
    ensures !GovernorAt(input, i).Outranks(GovernorAt(input, j))
  {
    ChainIsOrdered(input);
    var c, d := |ClusterMatched(input)|, |DefaultsMatched(input)|;
    if j < c {
      assert !KeyLess(ClusterKey(ClusterMatched(input)[j]), ClusterKey(ClusterMatched(input)[i]));
    } else if c <= i && j < c + d {
      assert !KeyLess(PolicyKey(DefaultsMatched(input)[j - c]), PolicyKey(DefaultsMatched(input)[i - c]));
    } else if c + d <= i {
      assert !KeyLess(PolicyKey(WorkloadMatched(input)[j - c - d]), PolicyKey(WorkloadMatched(input)[i - c - d]));
    }
  }

  /** The scope is governed iff a policy governs it, model-governed iff one with rules does. */
  lemma GovernedExactly(input: ResolveInput, e: Resolved)
    requires Resolve(input) == Ok(e)
    ensures e.governed <==> exists g :: Governs(input, g)
    ensures e.modelGoverned <==> exists g :: Governs(input, g) && g.Models() != []
  {
    if e.governed {
      GovernorOfLayer(input, 0);
    }
    if g :| Governs(input, g) {
      var i := PlaceOfGovernor(input, g);
    }
    var rules := e.cluster.rules + e.ns.rules + e.wl.rules;
    if e.modelGoverned {
      var r := rules[0];
      RulesExactly(input, e, r);
    }
    if g :| Governs(input, g) && g.Models() != [] {
      RulesExactly(input, e, SourcedRule(g.Models()[0], g.Source()));
      assert g.Models()[0] in g.Models();
    }
  }

  ghost predicate Contributes(g: Governor, r: SourcedRule) { r.rule in g.Models() && r.source == g.Source() }

  lemma {:induction false} RulesMember(layers: seq<Layer>, r: SourcedRule)
    ensures r in Rules(layers) <==> exists i :: 0 <= i < |layers| && r in SourceAll(layers[i].models, layers[i].source)
  {
    if layers == [] {
    } else {
      var n := |layers| - 1;
      RulesMember(layers[..n], r);
      if i :| 0 <= i < n && r in SourceAll(layers[..n][i].models, layers[..n][i].source) {
        assert r in SourceAll(layers[i].models, layers[i].source);
      }
      if i :| 0 <= i < n && r in SourceAll(layers[i].models, layers[i].source) {
        assert r in SourceAll(layers[..n][i].models, layers[..n][i].source);
      }
    }
  }

  lemma SourceAllMember(models: seq<ModelPermission>, source: string, r: SourcedRule)
    ensures r in SourceAll(models, source) <==> r.rule in models && r.source == source
  {
    if r.rule in models && r.source == source {
      var k :| 0 <= k < |models| && models[k] == r.rule;
      assert SourceAll(models, source)[k] == r;
    }
  }

  lemma RulesByGovernors(gs: seq<Governor>, layers: seq<Layer>, r: SourcedRule)
    requires |gs| == |layers| && forall i :: 0 <= i < |gs| ==> layers[i] == LayerOf(gs[i])
    ensures r in Rules(layers) <==> exists g :: g in gs && Contributes(g, r)
  {
    RulesMember(layers, r);
    forall i | 0 <= i < |gs|
      ensures r in SourceAll(layers[i].models, layers[i].source) <==> Contributes(gs[i], r)
    {
      LayerReads(gs[i]);
      SourceAllMember(layers[i].models, layers[i].source, r);
    }
    if g :| g in gs && Contributes(g, r) {
      var i :| 0 <= i < |gs| && gs[i] == g;
      assert r in SourceAll(layers[i].models, layers[i].source);
    }
  }

  ghost function ClusterGovernors(input: ResolveInput): seq<Governor> {
    seq(|ClusterMatched(input)|, i requires 0 <= i < |ClusterMatched(input)| => InCluster(ClusterMatched(input)[i]))
  }

  ghost function DefaultGovernors(input: ResolveInput): seq<Governor> {
    seq(|DefaultsMatched(input)|, i requires 0 <= i < |DefaultsMatched(input)| => AsDefault(DefaultsMatched(input)[i]))
  }

  ghost function WorkloadGovernors(input: ResolveInput): seq<Governor> {
    seq(|WorkloadMatched(input)|,
        i requires 0 <= i < |WorkloadMatched(input)| => ForWorkload(WorkloadMatched(input)[i]))
  }

  lemma GovernorsByTier(input: ResolveInput, g: Governor)
    ensures g in ClusterGovernors(input) <==> g.InCluster? && Governs(input, g)
    ensures g in DefaultGovernors(input) <==> g.AsDefault? && Governs(input, g)
    ensures g in WorkloadGovernors(input) <==> g.ForWorkload? && Governs(input, g)
  {
    TiersExactly(input, if g.InCluster? then g.cluster else ArbitraryCluster(),
                 if g.InCluster? then ArbitraryPolicy() else g.policy);
    match g {
      case InCluster(p) =>
        if i :| 0 <= i < |ClusterMatched(input)| && ClusterMatched(input)[i] == p {
          assert ClusterGovernors(input)[i] == g;
        }
      case AsDefault(p) =>
        if i :| 0 <= i < |DefaultsMatched(input)| && DefaultsMatched(input)[i] == p {
          assert DefaultGovernors(input)[i] == g;
        }
      case ForWorkload(p) =>
        if i :| 0 <= i < |WorkloadMatched(input)| && WorkloadMatched(input)[i] == p {
          assert WorkloadGovernors(input)[i] == g;
        }
    }
  }

  /** Each tier holds exactly the rules of its governors, each with the governor's source. */
  lemma RulesExactly(input: ResolveInput, e: Resolved, r: SourcedRule)
    requires Resolve(input) == Ok(e)
    ensures r in e.cluster.rules <==> exists g :: Governs(input, g) && g.InCluster? && Contributes(g, r)
    ensures r in e.ns.rules <==> exists g :: Governs(input, g) && g.AsDefault? && Contributes(g, r)
    ensures r in e.wl.rules <==> exists g :: Governs(input, g) && g.ForWorkload? && Contributes(g, r)
  {
    RulesByGovernors(ClusterGovernors(input), ClusterChain(input), r);
    RulesByGovernors(DefaultGovernors(input), DefaultChain(input), r);
    RulesByGovernors(WorkloadGovernors(input), WorkloadChain(input), r);
    forall g
      ensures g in ClusterGovernors(input) <==> g.InCluster? && Governs(input, g)
      ensures g in DefaultGovernors(input) <==> g.AsDefault? && Governs(input, g)
      ensures g in WorkloadGovernors(input) <==> g.ForWorkload? && Governs(input, g)
    {
      GovernorsByTier(input, g);
    }
  }

  /** Sources is exactly the sources of governors with rules or a quota, ascending. */
  lemma SourcesByGovernor(input: ResolveInput, e: Resolved, s: string)
    requires Resolve(input) == Ok(e)
    ensures s in e.sources <==>
            exists g :: Governs(input, g) && (g.Models() != [] || g.Quota().Some?) && g.Source() == s
    ensures Ascending(e.sources)
  {
    SourcesExact(input, e);
    if l :| Applicable(input, l) && l.Contributes() && l.source == s {
      ChainMember(input, l);
      var i :| 0 <= i < |Chain(input)| && Chain(input)[i] == l;
      GovernorOfLayer(input, i);
      LayerReads(GovernorAt(input, i));
    }
    if g :| Governs(input, g) && (g.Models() != [] || g.Quota().Some?) && g.Source() == s {
      var i := PlaceOfGovernor(input, g);
      GovernorOfLayer(input, i);
      LayerReads(g);
      assert Chain(input)[i] in Chain(input);
      ChainMember(input, LayerOf(g));
    }
  }

  // ---- Quota, field by field ----

  ghost function FieldOf(q: Option<TokenQuota>, get: TokenQuota -> Option<int>): Option<int> {
    if q.Some? then get(q.value) else None
  }

  /** The least limit any governor sets in a field, unset if none does. */
  ghost predicate LeastLimit(input: ResolveInput, limit: Option<int>, get: TokenQuota -> Option<int>) {
    && (forall g :: Governs(input, g) && FieldOf(g.Quota(), get).Some? ==>
          limit.Some? && limit.value <= FieldOf(g.Quota(), get).value)
    && (limit.Some? ==> exists g :: Governs(input, g) && FieldOf(g.Quota(), get) == limit)
  }

  lemma {:induction false} QuotaWitness(layers: seq<Layer>, w: Window)
    ensures Limit(QuotaOf(layers), w).Some? ==>
              exists i :: 0 <= i < |layers| && Limit(layers[i].quota, w) == Limit(QuotaOf(layers), w)
  {
    if layers == [] {
    } else {
      var n := |layers| - 1;
      QuotaWitness(layers[..n], w);
      MinQuotaIsMeet(QuotaOf(layers[..n]), layers[n].quota);
      if Limit(QuotaOf(layers), w).Some? && Limit(QuotaOf(layers), w) != Limit(layers[n].quota, w) {
        assert Limit(QuotaOf(layers), w) == Limit(QuotaOf(layers[..n]), w);
        var i :| 0 <= i < n && Limit(layers[..n][i].quota, w) == Limit(QuotaOf(layers[..n]), w);
        assert layers[..n][i] == layers[i];
      }
    }
  }

  lemma LeastLimitInWindow(input: ResolveInput, e: Resolved, w: Window, get: TokenQuota -> Option<int>)
    requires Resolve(input) == Ok(e)
    requires forall q: Option<TokenQuota> :: Limit(q, w) == FieldOf(q, get)
    ensures LeastLimit(input, FieldOf(e.quota, get), get)
  {
    QuotaBelowLayers(Chain(input));
    QuotaWitness(Chain(input), w);
    assert FieldOf(e.quota, get) == Limit(QuotaOf(Chain(input)), w);
    forall g | Governs(input, g) && FieldOf(g.Quota(), get).Some?
      ensures FieldOf(e.quota, get).Some? && FieldOf(e.quota, get).value <= FieldOf(g.Quota(), get).value
    {
      var i := PlaceOfGovernor(input, g);
      GovernorOfLayer(input, i);
      LayerReads(g);
      assert LimitAtMost(Limit(e.quota, w), Limit(g.Quota(), w));
    }
    if Limit(e.quota, w).Some? {
      var i :| 0 <= i < |Chain(input)| && Limit(Chain(input)[i].quota, w) == Limit(e.quota, w);
      GovernorOfLayer(input, i);
      LayerReads(GovernorAt(input, i));
      assert FieldOf(GovernorAt(input, i).Quota(), get) == FieldOf(e.quota, get);
    }
  }

  /** Each of the four limits is the least one any governing policy sets. */
  lemma QuotaIsLeastByField(input: ResolveInput, e: Resolved)
    requires Resolve(input) == Ok(e)
    ensures LeastLimit(input, FieldOf(e.quota, (q: TokenQuota) => q.tokensPerMinute),
                       (q: TokenQuota) => q.tokensPerMinute)
    ensures LeastLimit(input, FieldOf(e.quota, (q: TokenQuota) => q.requestsPerMinute),
                       (q: TokenQuota) => q.requestsPerMinute)
    ensures LeastLimit(input, FieldOf(e.quota, (q: TokenQuota) => q.tokensPerDay), (q: TokenQuota) => q.tokensPerDay)
    ensures LeastLimit(input, FieldOf(e.quota, (q: TokenQuota) => q.tokensPerMonth),
                       (q: TokenQuota) => q.tokensPerMonth)
  {
    LeastLimitInWindow(input, e, TokensPerMinute, (q: TokenQuota) => q.tokensPerMinute);
    LeastLimitInWindow(input, e, RequestsPerMinute, (q: TokenQuota) => q.requestsPerMinute);
    LeastLimitInWindow(input, e, TokensPerDay, (q: TokenQuota) => q.tokensPerDay);
    LeastLimitInWindow(input, e, TokensPerMonth, (q: TokenQuota) => q.tokensPerMonth);
  }

  // ---- Scalars ----

  /** g has a say, and outranks every other governor that has. */
  ghost predicate LastWord(input: ResolveInput, says: Governor -> bool, g: Governor) {
    Governs(input, g) && says(g) && forall h :: Governs(input, h) && says(h) ==> h == g || g.Outranks(h)
  }

  lemma LastSetterIsLastWord(input: ResolveInput, says: Governor -> bool, sets: Layer -> bool, g: Governor, i: int)
    requires LastWord(input, says, g) && forall h :: says(h) == sets(LayerOf(h))
    requires LastSetter(Chain(input), sets, i)
    ensures Chain(input)[i] == LayerOf(g)
  {
    var k := PlaceOfGovernor(input, g);
    GovernorOfLayer(input, k);
    GovernorOfLayer(input, i);
    assert sets(Chain(input)[k]) && k <= i;
    var h := GovernorAt(input, i);
    if h != g {
      assert g.Outranks(h) && k < i;
      LaterOutranks(input, k, i);
    }
  }

  lemma {:induction false} SomeLastSetter(layers: seq<Layer>, sets: Layer -> bool, k: nat) returns (i: int)
    requires k < |layers| && sets(layers[k])
    ensures LastSetter(layers, sets, i)
  {
    i := |layers| - 1;
    while !sets(layers[i])
      invariant k <= i < |layers| && forall j :: i < j < |layers| ==> !sets(layers[j])
      decreases i
    {
      i := i - 1;
    }
  }

  /**
   Enforcement and gateway come from the governing policy that sets them and outranks all others that do: the
   narrowest tier, then the highest priority, then the last name. Unset, they are Enforce and none.
   */
  lemma ScalarsFromLastWord(input: ResolveInput, e: Resolved, g: Governor)
    requires Resolve(input) == Ok(e)
    ensures LastWord(input, (h: Governor) => h.Mode() != EnforcementUnset, g) ==> e.enforcement == g.Mode()
    ensures LastWord(input, (h: Governor) => h.Gateway().Some?, g) ==> e.gateway == g.Gateway()
    ensures (forall h :: Governs(input, h) ==> h.Mode() == EnforcementUnset) ==> e.enforcement == Enforce
    ensures (forall h :: Governs(input, h) ==> h.Gateway() == None) ==> e.gateway == None
  {
    forall h ensures LayerOf(h).enforcement == h.Mode() && LayerOf(h).gateway == h.Gateway() {
      LayerReads(h);
    }
    var mode, gate := (h: Governor) => h.Mode() != EnforcementUnset, (h: Governor) => h.Gateway().Some?;
    if LastWord(input, mode, g) {
      var k := PlaceOfGovernor(input, g);
      GovernorOfLayer(input, k);
      var i := SomeLastSetter(Chain(input), SetsEnforcement(), k);
      LastSetterIsLastWord(input, mode, SetsEnforcement(), g, i);
      ScalarsComeFromLastSetter(input, e, i);
    }
    if LastWord(input, gate, g) {
      var k := PlaceOfGovernor(input, g);
      GovernorOfLayer(input, k);
      var i := SomeLastSetter(Chain(input), SetsGateway(), k);
      LastSetterIsLastWord(input, gate, SetsGateway(), g, i);
      ScalarsComeFromLastSetter(input, e, i);
    }
    UnsetByGovernors(input, e);
  }

  /** The default credential comes from the last-named governing cluster policy that names one. */
  lemma DefaultCredentialFromLastWord(input: ResolveInput, e: Resolved, g: Governor)
    requires Resolve(input) == Ok(e)
    ensures LastWord(input, (h: Governor) => h.InCluster? && h.cluster.defaultCredentialRef.Some?, g) ==>
              Some(e.defaultCredential) == g.cluster.defaultCredentialRef
    ensures (forall h :: Governs(input, h) && h.InCluster? ==> h.cluster.defaultCredentialRef == None) ==>
              e.defaultCredential == ""
  {
    var names := (h: Governor) => h.InCluster? && h.cluster.defaultCredentialRef.Some?;
    forall h ensures names(h) == SetsDefaultCredential()(LayerOf(h)) {
      LayerReads(h);
    }
    if LastWord(input, names, g) {
      var k := PlaceOfGovernor(input, g);
      GovernorOfLayer(input, k);
      var i := SomeLastSetter(Chain(input), SetsDefaultCredential(), k);
      LastSetterIsLastWord(input, names, SetsDefaultCredential(), g, i);
      ScalarsComeFromLastSetter(input, e, i);
      LayerReads(g);
    }
    UnsetByGovernors(input, e);
  }

  lemma UnsetByGovernors(input: ResolveInput, e: Resolved)
    requires Resolve(input) == Ok(e)
    ensures (forall h :: Governs(input, h) ==> h.Mode() == EnforcementUnset) ==> e.enforcement == Enforce
    ensures (forall h :: Governs(input, h) ==> h.Gateway() == None) ==> e.gateway == None
    ensures (forall h :: Governs(input, h) && h.InCluster? ==> h.cluster.defaultCredentialRef == None) ==>
              e.defaultCredential == ""
  {
    forall l | Applicable(input, l) ensures exists h :: Governs(input, h) && LayerOf(h) == l {
      ChainMember(input, l);
      var i :| 0 <= i < |Chain(input)| && Chain(input)[i] == l;
      GovernorOfLayer(input, i);
    }
    forall h ensures LayerOf(h).enforcement == h.Mode() && LayerOf(h).gateway == h.Gateway()
      && LayerOf(h).defaultCredential == (if h.InCluster? then h.cluster.defaultCredentialRef else None) {
      LayerReads(h);
    }
    UnsetScalars(input, e);
  }
}
