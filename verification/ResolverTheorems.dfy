/** What holds of resolution over every cluster state: order, entry points, quotas, scalars, sources. */
module ResolverTheorems {
  import opened Wrappers
  import opened Sorting
  import opened Api
  import opened Quotas
  import opened Resolver
  import opened ResolverEngine

  ghost predicate DistinctClusterNames(ps: seq<ClusterTokenPolicy>) {
    forall i, j :: 0 <= i < j < |ps| ==> ps[i].name != ps[j].name
  }

  ghost predicate DistinctPolicyNames(ps: seq<TokenPolicy>) {
    forall i, j :: 0 <= i < j < |ps| ==> ps[i].name != ps[j].name
  }

  lemma DistinctNamesAreKeys(cps: seq<ClusterTokenPolicy>, tps: seq<TokenPolicy>)
    ensures DistinctClusterNames(cps) ==> DistinctKeys(ClusterKey, cps)
    ensures DistinctPolicyNames(tps) ==> DistinctKeys(PolicyKey, tps)
  {
    assert forall i, j :: 0 <= i < j < |cps| && cps[i].name != cps[j].name ==> ClusterKey(cps[i]) != ClusterKey(cps[j]);
    assert forall i, j :: 0 <= i < j < |tps| && tps[i].name != tps[j].name ==> PolicyKey(tps[i]) != PolicyKey(tps[j]);
  }

  // ---- Errors ----

  lemma {:induction false} FaultFree<T>(fault: T -> Option<ResolveError>, s: seq<T>)
    ensures FirstFault(fault, s) == None <==> forall i :: 0 <= i < |s| ==> fault(s[i]) == None
  {
    if s == [] {
    } else {
      FaultFree(fault, s[..|s| - 1]);
    }
  }

  lemma FaultFreePermutes<T>(fault: T -> Option<ResolveError>, a: seq<T>, b: seq<T>)
    requires multiset(a) == multiset(b) && FirstFault(fault, a) == None
    ensures FirstFault(fault, b) == None
  {
    FaultFree(fault, a);
    FaultFree(fault, b);
    forall i | 0 <= i < |b| ensures fault(b[i]) == None {
      assert b[i] in multiset(a);
    }
  }

  // ---- Order independence ----

  /** Permuting the two policy lists changes neither whether Resolve fails nor any field of its result. */
  lemma ResolveForgetsOrder(a: ResolveInput, b: ResolveInput)
    requires multiset(a.clusterPolicies) == multiset(b.clusterPolicies)
    requires multiset(a.namespacePolicies) == multiset(b.namespacePolicies)
    requires b == a.(clusterPolicies := b.clusterPolicies, namespacePolicies := b.namespacePolicies)
    requires DistinctClusterNames(a.clusterPolicies) && DistinctPolicyNames(a.namespacePolicies)
    ensures Resolve(a).Err? <==> Resolve(b).Err?
    ensures Resolve(a).Ok? ==> Resolve(a) == Resolve(b)
  {
    DistinctNamesAreKeys(a.clusterPolicies, a.namespacePolicies);
    FilterSortForgetsOrder(ClusterKey, ClusterApplies(a.namespaceLabels), a.clusterPolicies, b.clusterPolicies);
    FilterSortForgetsOrder(PolicyKey, IsNamespaceDefault, a.namespacePolicies, b.namespacePolicies);
    FilterSortForgetsOrder(PolicyKey, WorkloadApplies(a.identity), a.namespacePolicies, b.namespacePolicies);
    if Resolve(a).Ok? {
      FaultFreePermutes(ClusterFault(a.namespaceLabels), a.clusterPolicies, b.clusterPolicies);
      FaultFreePermutes(WorkloadFault(a.identity), a.namespacePolicies, b.namespacePolicies);
    }
    if Resolve(b).Ok? {
      FaultFreePermutes(ClusterFault(a.namespaceLabels), b.clusterPolicies, a.clusterPolicies);
      FaultFreePermutes(WorkloadFault(a.identity), b.namespacePolicies, a.namespacePolicies);
    }
  }

  // ---- The two entry points ----

  lemma {:induction false} FilterAll<T>(p: T -> bool, s: seq<T>)
    requires forall i :: 0 <= i < |s| ==> p(s[i])
    ensures Filter(p, s) == s
  {
    if s == [] {
    } else {
      FilterAll(p, s[..|s| - 1]);
    }
  }

  lemma {:induction false} FilterNone<T>(p: T -> bool, s: seq<T>)
    requires forall i :: 0 <= i < |s| ==> !p(s[i])
    ensures Filter(p, s) == []
  {
    if s == [] {
    } else {
      FilterNone(p, s[..|s| - 1]);
    }
  }

  lemma {:induction false} FilterAgrees<T>(p: T -> bool, q: T -> bool, s: seq<T>)
    requires forall i :: 0 <= i < |s| ==> p(s[i]) == q(s[i])
    ensures Filter(p, s) == Filter(q, s)
  {
    if s == [] {
    } else {
      FilterAgrees(p, q, s[..|s| - 1]);
    }
  }

  lemma {:induction false} FilterTwice<T>(p: T -> bool, q: T -> bool, s: seq<T>)
    requires forall i :: 0 <= i < |s| && p(s[i]) ==> q(s[i])
    ensures Filter(p, Filter(q, s)) == Filter(p, s)
  {
    if s == [] {
    } else {
      var n := |s| - 1;
      FilterTwice(p, q, s[..n]);
      if q(s[n]) {
        FilterConcat(p, Filter(q, s[..n]), [s[n]]);
        assert Filter(p, [s[n]]) == if p(s[n]) then [s[n]] else [];
      }
    }
  }

  lemma {:induction false} FilterAllBut<T>(p: T -> bool, s: seq<T>, k: nat)
    requires k < |s| && !p(s[k])
    requires forall i :: 0 <= i < |s| && i != k ==> p(s[i])
    ensures Filter(p, s) == s[..k] + s[k + 1..]
  {
    var n := |s| - 1;
    if k == n {
      FilterAll(p, s[..n]);
      assert s[k + 1..] == [];
    } else {
      FilterAllBut(p, s[..n], k);
      assert s[..n][..k] == s[..k] && s[..n][k + 1..] + [s[n]] == s[k + 1..];
    }
  }

  lemma {:induction false} FilterOnly<T>(p: T -> bool, s: seq<T>, k: nat)
    requires k < |s| && p(s[k])
    requires forall i :: 0 <= i < |s| && i != k ==> !p(s[i])
    ensures Filter(p, s) == [s[k]]
  {
    var n := |s| - 1;
    if k == n {
      FilterNone(p, s[..n]);
    } else {
      FilterOnly(p, s[..n], k);
    }
  }

  lemma MovedLast<T>(s: seq<T>, k: nat)
    requires k < |s|
    ensures multiset(s) == multiset(s[..k] + s[k + 1..] + [s[k]])
  {
    assert s == s[..k] + ([s[k]] + s[k + 1..]);
  }

  /** Dropping the target and putting it back at the end is a permutation. */
  lemma TargetLast(tps: seq<TokenPolicy>, target: TokenPolicy)
    requires target in tps && DistinctPolicyNames(tps)
    ensures multiset(tps) == multiset(Filter(OtherThan(target), tps) + [target])
  {
    var k :| 0 <= k < |tps| && tps[k] == target;
    FilterAllBut(OtherThan(target), tps, k);
    MovedLast(tps, k);
  }

  lemma NoIdentityResolve(cps: seq<ClusterTokenPolicy>, tps: seq<TokenPolicy>, namespace: string, nsLabels: Labels)
    ensures var input := BaseInput(cps, tps, namespace, nsLabels);
            WorkloadChain(input) == [] && Fault(input) == FirstFault(ClusterFault(nsLabels), cps)
  {
    NoIdentityNoWorkloads(NO_IDENTITY, tps);
  }

  /** Whether, and in which version, the list holds the target makes no difference to its own resolution. */
  lemma TargetAsGiven(cps: seq<ClusterTokenPolicy>, tps: seq<TokenPolicy>, nsLabels: Labels, target: TokenPolicy)
    ensures ResolveForPolicy(cps, tps, nsLabels, target)
         == ResolveForPolicy(cps, Filter(OtherThan(target), tps) + [target], nsLabels, target)
  {
    var rest := Filter(OtherThan(target), tps);
    FilterConcat(OtherThan(target), rest, [target]);
    FilterTwice(OtherThan(target), OtherThan(target), tps);
    FilterOne(OtherThan(target), target);
    assert rest + [] == rest;
  }

  /** For a namespace-default target, ResolveForPolicy is Resolve without an identity. */
  lemma DefaultTargetAgrees(cps: seq<ClusterTokenPolicy>, tps: seq<TokenPolicy>, nsLabels: Labels, target: TokenPolicy)
    requires target in tps && DistinctPolicyNames(tps) && IsEmpty(target.selector)
    ensures ResolveForPolicy(cps, tps, nsLabels, target) == Resolve(BaseInput(cps, tps, target.namespace, nsLabels))
  {
    var moved := Filter(OtherThan(target), tps) + [target];
    TargetLast(tps, target);
    DistinctNamesAreKeys(cps, tps);
    FilterSortForgetsOrder(PolicyKey, IsNamespaceDefault, tps, moved);
    NoIdentityResolve(cps, tps, target.namespace, nsLabels);
    NoIdentityResolve(cps, moved, target.namespace, nsLabels);
  }

  /** For a workload target, it is the live Resolve of any identity that matches the target alone. */
  lemma WorkloadTargetAgrees(cps: seq<ClusterTokenPolicy>, tps: seq<TokenPolicy>, nsLabels: Labels,
                             target: TokenPolicy, id: Identity)
    requires target in tps && DistinctPolicyNames(tps) && !IsEmpty(target.selector) && id.Present()
    requires forall i :: 0 <= i < |tps| && !IsEmpty(tps[i].selector) ==>
               WorkloadMatches(tps[i].selector, PodLabelsOf(id.podLabels), id.serviceAccount) == Ok(tps[i] == target)
    ensures ResolveForPolicy(cps, tps, nsLabels, target)
         == Resolve(ResolveInput(cps, tps, target.namespace, nsLabels, id))
  {
    var k :| 0 <= k < |tps| && tps[k] == target;
    FilterOnly(WorkloadApplies(id), tps, k);
    SortOne(PolicyKey, target);
    assert PolicyLayersOf([target]) == [PolicyLayer(target)];
    FilterTwice(IsNamespaceDefault, OtherThan(target), tps);
    FaultFree(WorkloadFault(id), tps);
    NoIdentityResolve(cps, Filter(OtherThan(target), tps), target.namespace, nsLabels);
  }

  // ---- Which layers make up a result ----

  function Chain(input: ResolveInput): seq<Layer> {
    ClusterChain(input) + DefaultChain(input) + WorkloadChain(input)
  }

  /** The layer is that of a policy which governs the scope. */
  ghost predicate Applicable(input: ResolveInput, l: Layer) {
    || (exists p :: p in input.clusterPolicies && ClusterApplies(input.namespaceLabels)(p) && l == ClusterLayer(p))
    || (exists p :: p in input.namespacePolicies && IsEmpty(p.selector) && l == PolicyLayer(p))
    || (exists p :: p in input.namespacePolicies && WorkloadApplies(input.identity)(p) && l == PolicyLayer(p))
  }

  lemma SortedFilterMember<T>(key: T -> SortKey, p: T -> bool, s: seq<T>, x: T)
    ensures x in Sort(key, Filter(p, s)) <==> x in s && p(x)
  {
    SortSorts(key, Filter(p, s));
    FilterMember(p, s, x);
    assert x in Sort(key, Filter(p, s)) <==> x in multiset(Sort(key, Filter(p, s)));
  }

  lemma ChainMember(input: ResolveInput, l: Layer)
    ensures l in Chain(input) <==> Applicable(input, l)
  {
    forall p ensures p in ClusterMatched(input) <==>
      p in input.clusterPolicies && ClusterApplies(input.namespaceLabels)(p) {
      SortedFilterMember(ClusterKey, ClusterApplies(input.namespaceLabels), input.clusterPolicies, p);
    }
    forall p ensures p in DefaultsMatched(input) <==> p in input.namespacePolicies && IsNamespaceDefault(p) {
      SortedFilterMember(PolicyKey, IsNamespaceDefault, input.namespacePolicies, p);
    }
    forall p ensures p in WorkloadMatched(input) <==>
      p in input.namespacePolicies && WorkloadApplies(input.identity)(p) {
      SortedFilterMember(PolicyKey, WorkloadApplies(input.identity), input.namespacePolicies, p);
    }
    ClusterLayerIn(ClusterMatched(input), l);
    PolicyLayerIn(DefaultsMatched(input), l);
    PolicyLayerIn(WorkloadMatched(input), l);
  }

  lemma ClusterLayerIn(ps: seq<ClusterTokenPolicy>, l: Layer)
    ensures l in ClusterLayersOf(ps) <==> exists p :: p in ps && l == ClusterLayer(p)
  {
    if p :| p in ps && l == ClusterLayer(p) {
      var i :| 0 <= i < |ps| && ps[i] == p;
      assert ClusterLayersOf(ps)[i] == l;
    }
  }

  lemma PolicyLayerIn(ps: seq<TokenPolicy>, l: Layer)
    ensures l in PolicyLayersOf(ps) <==> exists p :: p in ps && l == PolicyLayer(p)
  {
    if p :| p in ps && l == PolicyLayer(p) {
      var i :| 0 <= i < |ps| && ps[i] == p;
      assert PolicyLayersOf(ps)[i] == l;
    }
  }

  // ---- Quota ----

  lemma {:induction false} QuotaBelowLayers(layers: seq<Layer>)
    ensures forall i :: 0 <= i < |layers| ==> AtMost(QuotaOf(layers), layers[i].quota)
    ensures QuotaOf(layers) == None <==> forall i :: 0 <= i < |layers| ==> layers[i].quota == None
  {
    if layers == [] {
    } else {
      var n := |layers| - 1;
      QuotaBelowLayers(layers[..n]);
      MinQuotaIsMeet(QuotaOf(layers[..n]), layers[n].quota);
      forall i | 0 <= i < n ensures AtMost(QuotaOf(layers), layers[i].quota) {
        assert layers[..n][i] == layers[i];
        AtMostTransitive(QuotaOf(layers), QuotaOf(layers[..n]), layers[i].quota);
      }
      assert forall i :: 0 <= i < n ==> layers[..n][i] == layers[i];
    }
  }

  lemma {:induction false} QuotaAboveBounds(layers: seq<Layer>, q: Option<TokenQuota>)
    requires forall i :: 0 <= i < |layers| ==> AtMost(q, layers[i].quota)
    ensures AtMost(q, QuotaOf(layers))
  {
    if layers == [] {
    } else {
      var n := |layers| - 1;
      QuotaAboveBounds(layers[..n], q);
      MinQuotaIsMeet(QuotaOf(layers[..n]), layers[n].quota);
    }
  }

  /**
   The resolved quota is the greatest lower bound of exactly the applicable policies' quotas, and it is
   unset if and only if none of them sets one.
   */
  lemma ResolvedQuotaIsGreatestLowerBound(input: ResolveInput, e: Resolved, q: Option<TokenQuota>)
    requires Resolve(input) == Ok(e)
    ensures forall l :: Applicable(input, l) ==> AtMost(e.quota, l.quota)
    ensures (forall l :: Applicable(input, l) ==> AtMost(q, l.quota)) ==> AtMost(q, e.quota)
    ensures e.quota == None <==> forall l :: Applicable(input, l) ==> l.quota == None
  {
    var chain := Chain(input);
    QuotaBelowLayers(chain);
    forall l ensures l in chain <==> Applicable(input, l) {
      ChainMember(input, l);
    }
    forall l | Applicable(input, l) ensures AtMost(e.quota, l.quota) {
      assert l in chain;
    }
    if forall l :: Applicable(input, l) ==> AtMost(q, l.quota) {
      assert forall i :: 0 <= i < |chain| ==> chain[i] in chain;
      QuotaAboveBounds(chain, q);
    }
  }

  /** A pod's quota is at or below the status quota of every policy that selects it. */
  lemma StatusQuotaBoundsPods(cps: seq<ClusterTokenPolicy>, tps: seq<TokenPolicy>, nsLabels: Labels,
                              target: TokenPolicy, id: Identity, status: Resolved, pod: Resolved)
    requires target in tps && DistinctPolicyNames(tps)
    requires ResolveForPolicy(cps, tps, nsLabels, target) == Ok(status)
    requires Resolve(ResolveInput(cps, tps, target.namespace, nsLabels, id)) == Ok(pod)
    requires IsEmpty(target.selector) || WorkloadVerdict(id, target) == Ok(true)
    ensures AtMost(pod.quota, status.quota)
  {
    if IsEmpty(target.selector) {
      DefaultStatusQuota(cps, tps, nsLabels, target, id, status, pod);
    } else {
      WorkloadStatusQuota(cps, tps, nsLabels, target, id, status, pod);
    }
  }

  lemma DefaultStatusQuota(cps: seq<ClusterTokenPolicy>, tps: seq<TokenPolicy>, nsLabels: Labels,
                           target: TokenPolicy, id: Identity, status: Resolved, pod: Resolved)
    requires target in tps && DistinctPolicyNames(tps) && IsEmpty(target.selector)
    requires ResolveForPolicy(cps, tps, nsLabels, target) == Ok(status)
    requires Resolve(ResolveInput(cps, tps, target.namespace, nsLabels, id)) == Ok(pod)
    ensures AtMost(pod.quota, status.quota)
  {
    var live, base :=
      ResolveInput(cps, tps, target.namespace, nsLabels, id), BaseInput(cps, tps, target.namespace, nsLabels);
    DefaultTargetAgrees(cps, tps, nsLabels, target);
    ResolvedQuotaIsGreatestLowerBound(live, pod, None);
    forall l | Applicable(base, l) ensures AtMost(pod.quota, l.quota) {
      assert Applicable(live, l);
    }
    ResolvedQuotaIsGreatestLowerBound(base, status, pod.quota);
  }

  lemma WorkloadStatusQuota(cps: seq<ClusterTokenPolicy>, tps: seq<TokenPolicy>, nsLabels: Labels,
                            target: TokenPolicy, id: Identity, status: Resolved, pod: Resolved)
    requires target in tps && DistinctPolicyNames(tps) && !IsEmpty(target.selector)
    requires ResolveForPolicy(cps, tps, nsLabels, target) == Ok(status)
    requires Resolve(ResolveInput(cps, tps, target.namespace, nsLabels, id)) == Ok(pod)
    requires WorkloadVerdict(id, target) == Ok(true)
    ensures AtMost(pod.quota, status.quota)
  {
    var live := ResolveInput(cps, tps, target.namespace, nsLabels, id);
    var base := BaseInput(cps, Filter(OtherThan(target), tps), target.namespace, nsLabels);
    var inherited := ClusterChain(base) + DefaultChain(base);
    FilterTwice(IsNamespaceDefault, OtherThan(target), tps);
    assert inherited == ClusterChain(live) + DefaultChain(live);
    QuotaBelowLayers(Chain(live));
    ChainMember(live, PolicyLayer(target));
    var t :| 0 <= t < |Chain(live)| && Chain(live)[t] == PolicyLayer(target);
    forall i | 0 <= i < |inherited| + 1 ensures AtMost(pod.quota, (inherited + [PolicyLayer(target)])[i].quota) {
      assert i < |inherited| ==> Chain(live)[i] == inherited[i];
    }
    QuotaAboveBounds(inherited + [PolicyLayer(target)], pod.quota);
  }

  // ---- Enforcement, gateway and default credential: the last policy that sets them ----

  /** Cluster policies by name, then namespace defaults, then workload policies, both by priority and name. */
  lemma ChainIsOrdered(input: ResolveInput)
    ensures Ordered(ClusterKey, ClusterMatched(input))
    ensures Ordered(PolicyKey, DefaultsMatched(input)) && Ordered(PolicyKey, WorkloadMatched(input))
  {
    SortSorts(ClusterKey, Filter(ClusterApplies(input.namespaceLabels), input.clusterPolicies));
    SortSorts(PolicyKey, Filter(IsNamespaceDefault, input.namespacePolicies));
    SortSorts(PolicyKey, Filter(WorkloadApplies(input.identity), input.namespacePolicies));
  }

  /** i is the last layer for which `sets` holds. */
  ghost predicate LastSetter(layers: seq<Layer>, sets: Layer -> bool, i: int) {
    0 <= i < |layers| && sets(layers[i]) && forall j :: i < j < |layers| ==> !sets(layers[j])
  }

  ghost function SetsEnforcement(): Layer -> bool { (l: Layer) => l.enforcement != EnforcementUnset }
  ghost function SetsGateway(): Layer -> bool { (l: Layer) => l.gateway.Some? }
  ghost function SetsDefaultCredential(): Layer -> bool { (l: Layer) => l.defaultCredential.Some? }

  lemma {:induction false} LastEnforcement(layers: seq<Layer>, i: int)
    ensures LastSetter(layers, SetsEnforcement(), i) ==> EnforcementOf(layers) == layers[i].enforcement
    ensures (forall l :: l in layers ==> l.enforcement == EnforcementUnset) ==> EnforcementOf(layers) == Enforce
  {
    if layers != [] && layers[|layers| - 1].enforcement == EnforcementUnset {
      LastEnforcement(layers[..|layers| - 1], i);
    }
  }

  /** The narrower layers decide the mode, if one of them sets it. */
  lemma {:induction false} EnforcementConcat(a: seq<Layer>, b: seq<Layer>)
    ensures EnforcementOf(a + b) == if exists l :: l in b && l.enforcement != EnforcementUnset
                                    then EnforcementOf(b) else EnforcementOf(a)
  {
    if b == [] {
      assert a + b == a;
    } else {
      var n := |b| - 1;
      assert (a + b)[..|a + b| - 1] == a + b[..n] && b == b[..n] + [b[n]];
      EnforcementConcat(a, b[..n]);
      assert b[n] in b;
    }
  }

  lemma {:induction false} LastGateway(layers: seq<Layer>, i: int)
    ensures LastSetter(layers, SetsGateway(), i) ==> GatewayOf(layers) == layers[i].gateway
    ensures (forall l :: l in layers ==> l.gateway == None) ==> GatewayOf(layers) == None
  {
    if layers != [] && layers[|layers| - 1].gateway == None {
      LastGateway(layers[..|layers| - 1], i);
    }
  }

  lemma {:induction false} LastDefaultCredential(layers: seq<Layer>, i: int)
    ensures LastSetter(layers, SetsDefaultCredential(), i) ==>
              Some(DefaultCredentialOf(layers)) == layers[i].defaultCredential
    ensures (forall l :: l in layers ==> l.defaultCredential == None) ==> DefaultCredentialOf(layers) == ""
  {
    if layers != [] && layers[|layers| - 1].defaultCredential == None {
      LastDefaultCredential(layers[..|layers| - 1], i);
    }
  }

  lemma UnsetScalars(input: ResolveInput, e: Resolved)
    requires Resolve(input) == Ok(e)
    ensures (forall l :: Applicable(input, l) ==> l.enforcement == EnforcementUnset) ==> e.enforcement == Enforce
    ensures (forall l :: Applicable(input, l) ==> l.gateway == None) ==> e.gateway == None
    ensures (forall l :: Applicable(input, l) ==> l.defaultCredential == None) ==> e.defaultCredential == ""
  {
    LastEnforcement(Chain(input), 0);
    LastGateway(Chain(input), 0);
    LastDefaultCredential(Chain(input), 0);
    forall l ensures l in Chain(input) <==> Applicable(input, l) {
      ChainMember(input, l);
    }
  }

  /** A resolved scalar is the value of the last applicable policy that sets it, else the default. */
  lemma ScalarsComeFromLastSetter(input: ResolveInput, e: Resolved, i: int)
    requires Resolve(input) == Ok(e)
    ensures LastSetter(Chain(input), SetsEnforcement(), i) ==> e.enforcement == Chain(input)[i].enforcement
    ensures LastSetter(Chain(input), SetsGateway(), i) ==> e.gateway == Chain(input)[i].gateway
    ensures LastSetter(Chain(input), SetsDefaultCredential(), i) ==>
              Some(e.defaultCredential) == Chain(input)[i].defaultCredential && i < |ClusterChain(input)|
    ensures (forall l :: Applicable(input, l) ==> l.enforcement == EnforcementUnset) ==> e.enforcement == Enforce
    ensures (forall l :: Applicable(input, l) ==> l.gateway == None) ==> e.gateway == None
    ensures (forall l :: Applicable(input, l) ==> l.defaultCredential == None) ==> e.defaultCredential == ""
  {
    LastEnforcement(Chain(input), i);
    LastGateway(Chain(input), i);
    LastDefaultCredential(Chain(input), i);
    UnsetScalars(input, e);
  }

  // ---- Sources ----

  /** Sources is ascending, so duplicate-free, and names exactly the applicable policies with rules or a quota. */
  lemma SourcesExact(input: ResolveInput, e: Resolved)
    requires Resolve(input) == Ok(e)
    ensures Ascending(e.sources)
    ensures forall s :: s in e.sources <==> exists l :: Applicable(input, l) && l.Contributes() && l.source == s
  {
    SourceNamesAreSourceSet(Chain(input));
    SortStringsAscends(SourceNames(Chain(input)));
    forall l ensures l in Chain(input) <==> Applicable(input, l) {
      ChainMember(input, l);
    }
  }
}
