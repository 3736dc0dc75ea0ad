/**
 The effective-policy decision as functions of the cluster state: which policies apply, in which order,
 what each field of the result is (stated per field, as a search over the ordered policies), and what
 Permit answers. The class in ResolverEngine computes the same values the way the program does.
 */
module Resolver {
  import opened Wrappers
  import opened Strings
  import opened Sorting
  import opened Glob
  import opened Api
  import opened Quotas
  import opened FirstOccurrences

  // ---- Inputs and results ----

  /** A workload identity; absent labels and an empty account mean "no workload". */
  datatype Identity = Identity(podLabels: Option<Labels>, serviceAccount: string)
  {
    predicate Present() { podLabels.Some? || serviceAccount != "" }
  }

  const NO_IDENTITY := Identity(None, "")

  datatype ResolveInput = ResolveInput(
    clusterPolicies: seq<ClusterTokenPolicy>, namespacePolicies: seq<TokenPolicy>,
    namespace: string, namespaceLabels: Labels, identity: Identity)

  datatype ResolveError =
    | BadNamespaceSelector(policy: string)
    | BadWorkloadSelector(namespace: string, policy: string)

  datatype SourcedRule = SourcedRule(rule: ModelPermission, source: string)

  datatype Tier = Tier(name: string, rules: seq<SourcedRule>)

  datatype Resolved = Resolved(
    governed: bool, modelGoverned: bool, enforcement: EnforcementMode, quota: Option<TokenQuota>,
    gateway: Option<GatewayIntegration>, defaultCredential: string, sources: seq<string>,
    cluster: Tier, ns: Tier, wl: Tier)

  // ---- Policies as layers ----

  /** What a policy of either kind contributes. */
  datatype Layer = Layer(
    source: string, models: seq<ModelPermission>, quota: Option<TokenQuota>, enforcement: EnforcementMode,
    defaultCredential: Option<string>, gateway: Option<GatewayIntegration>)
  {
    predicate Contributes() { models != [] || quota.Some? }
  }

  function ClusterSource(name: string): string { "ClusterTokenPolicy/" + name }

  function PolicySource(namespace: string, name: string): string {
    "TokenPolicy/" + namespace + "/" + name
  }

  function ClusterLayer(p: ClusterTokenPolicy): Layer {
    Layer(ClusterSource(p.name), p.models, p.quota, p.enforcement, p.defaultCredentialRef, p.gateway)
  }

  function PolicyLayer(p: TokenPolicy): Layer {
    Layer(PolicySource(p.namespace, p.name), p.models, p.quota, p.enforcement, None, p.gateway)
  }

  function ClusterLayersOf(ps: seq<ClusterTokenPolicy>): seq<Layer> {
    seq(|ps|, i requires 0 <= i < |ps| => ClusterLayer(ps[i]))
  }

  function PolicyLayersOf(ps: seq<TokenPolicy>): seq<Layer> {
    seq(|ps|, i requires 0 <= i < |ps| => PolicyLayer(ps[i]))
  }

  // ---- Which policies apply, and in which order ----

  function ClusterKey(p: ClusterTokenPolicy): SortKey { SortKey(0, p.name) }

  function PolicyKey(p: TokenPolicy): SortKey { SortKey(p.priority, p.name) }

  function ClusterApplies(nsLabels: Labels): ClusterTokenPolicy -> bool {
    (p: ClusterTokenPolicy) => SelectorMatches(p.namespaceSelector, nsLabels) == Ok(true)
  }

  function IsNamespaceDefault(p: TokenPolicy): bool { IsEmpty(p.selector) }

  function PodLabelsOf(podLabels: Option<Labels>): Labels {
    match podLabels case None => map[] case Some(l) => l
  }

  function WorkloadVerdict(id: Identity, p: TokenPolicy): Result<bool, SelectorError> {
    if IsEmpty(p.selector) || !id.Present() then Ok(false)
    else WorkloadMatches(p.selector, PodLabelsOf(id.podLabels), id.serviceAccount)
  }

  function WorkloadApplies(id: Identity): TokenPolicy -> bool {
    (p: TokenPolicy) => WorkloadVerdict(id, p) == Ok(true)
  }

  function ClusterMatched(input: ResolveInput): seq<ClusterTokenPolicy> {
    Sort(ClusterKey, Filter(ClusterApplies(input.namespaceLabels), input.clusterPolicies))
  }

  function DefaultsMatched(input: ResolveInput): seq<TokenPolicy> {
    Sort(PolicyKey, Filter(IsNamespaceDefault, input.namespacePolicies))
  }

  function WorkloadMatched(input: ResolveInput): seq<TokenPolicy> {
    Sort(PolicyKey, Filter(WorkloadApplies(input.identity), input.namespacePolicies))
  }

  // ---- Errors: the first policy whose selector cannot be parsed ----

  function FirstFault<T>(fault: T -> Option<ResolveError>, s: seq<T>): Option<ResolveError> {
    if s == [] then None
    else
      var earlier := FirstFault(fault, s[..|s| - 1]);
      if earlier.Some? then earlier else fault(s[|s| - 1])
  }

  function ClusterFault(nsLabels: Labels): ClusterTokenPolicy -> Option<ResolveError> {
    (p: ClusterTokenPolicy) =>
      if SelectorMatches(p.namespaceSelector, nsLabels).Err? then Some(BadNamespaceSelector(p.name)) else None
  }

  function WorkloadFault(id: Identity): TokenPolicy -> Option<ResolveError> {
    (p: TokenPolicy) =>
      if WorkloadVerdict(id, p).Err? then Some(BadWorkloadSelector(p.namespace, p.name)) else None
  }

  function Fault(input: ResolveInput): Option<ResolveError> {
    var e := FirstFault(ClusterFault(input.namespaceLabels), input.clusterPolicies);
    if e.Some? then e else FirstFault(WorkloadFault(input.identity), input.namespacePolicies)
  }

  // ---- The fields of the result, each as a search over the ordered layers ----

  function SourceAll(models: seq<ModelPermission>, source: string): seq<SourcedRule> {
    seq(|models|, i requires 0 <= i < |models| => SourcedRule(models[i], source))
  }

  function Rules(layers: seq<Layer>): seq<SourcedRule> {
    if layers == [] then []
    else
      var last := layers[|layers| - 1];
      Rules(layers[..|layers| - 1]) + SourceAll(last.models, last.source)
  }

  function QuotaOf(layers: seq<Layer>): Option<TokenQuota> {
    if layers == [] then None else MinQuota(QuotaOf(layers[..|layers| - 1]), layers[|layers| - 1].quota)
  }

  /** The last layer that sets the mode; Enforce when none does. */
  function EnforcementOf(layers: seq<Layer>): (r: EnforcementMode)
    ensures r != EnforcementUnset
  {
    if layers == [] then Enforce
    else if layers[|layers| - 1].enforcement != EnforcementUnset then layers[|layers| - 1].enforcement
    else EnforcementOf(layers[..|layers| - 1])
  }

  function GatewayOf(layers: seq<Layer>): Option<GatewayIntegration> {
    if layers == [] then None
    else if layers[|layers| - 1].gateway.Some? then layers[|layers| - 1].gateway
    else GatewayOf(layers[..|layers| - 1])
  }

  function DefaultCredentialOf(layers: seq<Layer>): string {
    if layers == [] then ""
    else if layers[|layers| - 1].defaultCredential.Some? then layers[|layers| - 1].defaultCredential.value
    else DefaultCredentialOf(layers[..|layers| - 1])
  }

  /** Sources of the layers with rules or a quota, each once, in first-occurrence order. */
  function SourceNames(layers: seq<Layer>): seq<string> {
    if layers == [] then []
    else
      var earlier := SourceNames(layers[..|layers| - 1]);
      var last := layers[|layers| - 1];
      if last.Contributes() && last.source !in earlier then earlier + [last.source] else earlier
  }

  function Assemble(c: seq<Layer>, n: seq<Layer>, w: seq<Layer>): Resolved {
    var chain := c + n + w;
    Resolved(
      chain != [], Rules(c) != [] || Rules(n) != [] || Rules(w) != [],
      EnforcementOf(chain), QuotaOf(chain), GatewayOf(chain), DefaultCredentialOf(chain),
      SortStrings(SourceNames(chain)),
      Tier("cluster", Rules(c)), Tier("namespace", Rules(n)), Tier("workload", Rules(w)))
  }

  function ClusterChain(input: ResolveInput): seq<Layer> { ClusterLayersOf(ClusterMatched(input)) }
  function DefaultChain(input: ResolveInput): seq<Layer> { PolicyLayersOf(DefaultsMatched(input)) }
  function WorkloadChain(input: ResolveInput): seq<Layer> { PolicyLayersOf(WorkloadMatched(input)) }

  function Resolve(input: ResolveInput): Result<Resolved, ResolveError> {
    match Fault(input)
    case Some(e) => Err(e)
    case None => Ok(Assemble(ClusterChain(input), DefaultChain(input), WorkloadChain(input)))
  }

  // ---- ResolveForPolicy ----

  function OtherThan(target: TokenPolicy): TokenPolicy -> bool {
    (p: TokenPolicy) => !(p.namespace == target.namespace && p.name == target.name)
  }

  function BaseInput(clusterPolicies: seq<ClusterTokenPolicy>, namespacePolicies: seq<TokenPolicy>,
                     namespace: string, nsLabels: Labels): ResolveInput {
    ResolveInput(clusterPolicies, namespacePolicies, namespace, nsLabels, NO_IDENTITY)
  }

  function ResolveForPolicy(clusterPolicies: seq<ClusterTokenPolicy>, namespacePolicies: seq<TokenPolicy>,
                            nsLabels: Labels, target: TokenPolicy): Result<Resolved, ResolveError> {
    var rest := Filter(OtherThan(target), namespacePolicies);
    if IsEmpty(target.selector) then
      Resolve(BaseInput(clusterPolicies, rest + [target], target.namespace, nsLabels))
    else
      var base := BaseInput(clusterPolicies, rest, target.namespace, nsLabels);
      match Fault(base)
      case Some(e) => Err(e)
      case None => Ok(Assemble(ClusterChain(base), DefaultChain(base), [PolicyLayer(target)]))
  }

  // ---- Permit ----

  datatype Decision = Abstain | Allow | Deny

  datatype TierVerdict = TierVerdict(decision: Decision, credential: string, source: string)

  /** The wording of the reason is not part of the model. */
  datatype ModelDecision = ModelDecision(
    provider: string, model: string, allowed: bool, credential: string, deniedBy: string)

  function NormAction(a: Action): Action { if a == ActionUnset then ActionAllow else a }

  predicate ModelMatches(r: ModelPermission, provider: string, model: string) {
    GlobMatch(r.provider, provider) && GlobMatch(r.model, model)
  }

  predicate IsAllow(r: SourcedRule) { NormAction(r.rule.action) == ActionAllow }

  predicate Denies(r: SourcedRule, provider: string, model: string) {
    NormAction(r.rule.action) == ActionDeny && ModelMatches(r.rule, provider, model)
  }

  predicate Grants(r: SourcedRule, provider: string, model: string) {
    IsAllow(r) && ModelMatches(r.rule, provider, model)
  }

  function FirstDeny(rules: seq<SourcedRule>, provider: string, model: string): Option<SourcedRule> {
    if rules == [] then None
    else if Denies(rules[0], provider, model) then Some(rules[0])
    else FirstDeny(rules[1..], provider, model)
  }

  function FirstGrant(rules: seq<SourcedRule>, provider: string, model: string): Option<SourcedRule> {
    if rules == [] then None
    else if Grants(rules[0], provider, model) then Some(rules[0])
    else FirstGrant(rules[1..], provider, model)
  }

  function CredentialName(ref: Option<string>): string {
    match ref case None => "" case Some(name) => name
  }

  function EvalTier(t: Tier, provider: string, model: string): TierVerdict {
    if t.rules == [] then TierVerdict(Abstain, "", "")
    else
      var hasAllow := exists r :: r in t.rules && IsAllow(r);
      match FirstDeny(t.rules, provider, model)
      case Some(r) => TierVerdict(Deny, "", r.source)
      case None =>
        match FirstGrant(t.rules, provider, model)
        case Some(r) => TierVerdict(Allow, CredentialName(r.rule.credentialRef), r.source)
        case None =>
          if hasAllow then TierVerdict(Deny, "", t.name + " allowlist") else TierVerdict(Allow, "", "")
  }

  function Permit(e: Resolved, provider: string, model: string): ModelDecision {
    var c, n, w :=
      EvalTier(e.cluster, provider, model), EvalTier(e.ns, provider, model), EvalTier(e.wl, provider, model);
    if w.decision == Deny then ModelDecision(provider, model, false, "", w.source)
    else if n.decision == Deny then ModelDecision(provider, model, false, "", n.source)
    else if c.decision == Deny then ModelDecision(provider, model, false, "", c.source)
    else
      var credential :=
        if w.decision == Allow && w.credential != "" then w.credential
        else if n.decision == Allow && n.credential != "" then n.credential
        else if c.decision == Allow && c.credential != "" then c.credential
        else e.defaultCredential;
      ModelDecision(provider, model, true, credential, "")
  }

  /** Permit of a resolved hierarchy, as a function of the query. */
  type Verdicts = (string, string) -> ModelDecision

  function Decide(e: Resolved): Verdicts { (provider: string, model: string) => Permit(e, provider, model) }

  // ---- EffectiveModels ----

  datatype ModelKey = ModelKey(provider: string, model: string)

  /** The enumeration keys rules by lower case alone; it does not trim. */
  function RuleKey(r: SourcedRule): ModelKey { ModelKey(ToLower(r.rule.provider), ToLower(r.rule.model)) }

  function AllRules(e: Resolved): seq<SourcedRule> { e.cluster.rules + e.ns.rules + e.wl.rules }

  function FirstAllows(rules: seq<SourcedRule>): seq<SourcedRule> { Firsts(RuleKey, Filter(IsAllow, rules)) }

  function EffectiveEntry(e: Resolved, k: ModelKey, source: string): EffectiveModel {
    var d := Permit(e, k.provider, k.model);
    EffectiveModel(k.provider, k.model, if d.allowed then ActionAllow else ActionDeny, d.credential, source)
  }

  function EffectiveModels(e: Resolved): seq<EffectiveModel> {
    var firsts := FirstAllows(AllRules(e));
    seq(|firsts|, i requires 0 <= i < |firsts| => EffectiveEntry(e, RuleKey(firsts[i]), firsts[i].source))
  }
}
