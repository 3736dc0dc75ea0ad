/** The API objects the decisions read: selectors, permissions, quotas, policies, claims, credentials. */
module Api {
  import opened Wrappers

  // ---- Label selectors ----

  type Labels = map<string, string>

  datatype Operator = In | NotIn | Exists | DoesNotExist | UnknownOperator(raw: string)

  datatype Requirement = Requirement(key: string, operator: Operator, values: seq<string>)

  datatype LabelSelector = LabelSelector(matchLabels: Labels, matchExpressions: seq<Requirement>)

  /** metav1.LabelSelectorAsSelector refuses the selector. */
  predicate Malformed(r: Requirement) {
    match r.operator
    case In | NotIn => r.values == []
    case Exists | DoesNotExist => r.values != []
    case UnknownOperator(_) => true
  }

  predicate RequirementHolds(r: Requirement, labels: Labels) {
    match r.operator
    case In => r.key in labels && labels[r.key] in r.values
    case NotIn => r.key !in labels || labels[r.key] !in r.values
    case Exists => r.key in labels
    case DoesNotExist => r.key !in labels
    case UnknownOperator(_) => false
  }

  predicate WellFormedSelector(sel: LabelSelector) {
    forall i :: 0 <= i < |sel.matchExpressions| ==> !Malformed(sel.matchExpressions[i])
  }

  predicate LabelsMatch(sel: LabelSelector, labels: Labels) {
    && (forall k :: k in sel.matchLabels ==> k in labels && labels[k] == sel.matchLabels[k])
    && (forall i :: 0 <= i < |sel.matchExpressions| ==> RequirementHolds(sel.matchExpressions[i], labels))
  }

  datatype SelectorError = SelectorError

  /** selectorMatches: an absent selector matches everything. */
  function SelectorMatches(sel: Option<LabelSelector>, labels: Labels): Result<bool, SelectorError> {
    match sel
    case None => Ok(true)
    case Some(s) => if WellFormedSelector(s) then Ok(LabelsMatch(s, labels)) else Err(SelectorError)
  }

  // ---- Workload selectors ----

  datatype WorkloadSelector = WorkloadSelector(podSelector: Option<LabelSelector>, serviceAccounts: seq<string>)

  predicate IsEmpty(sel: Option<WorkloadSelector>) {
    match sel
    case None => true
    case Some(w) =>
      && w.serviceAccounts == []
      && (w.podSelector == None ||
          (w.podSelector.value.matchLabels == map[] && w.podSelector.value.matchExpressions == []))
  }

  /** Accounts are tested first, so a malformed pod selector is never seen by another account. */
  function WorkloadMatches(sel: Option<WorkloadSelector>, podLabels: Labels, account: string)
    : Result<bool, SelectorError>
  {
    match sel
    case None => Ok(true)
    case Some(w) =>
      if w.serviceAccounts != [] && account !in w.serviceAccounts then Ok(false)
      else SelectorMatches(w.podSelector, podLabels)
  }

  // ---- Permissions, quotas and policies ----

  /** Unset is the empty string, which the API server defaults and normAction reads as Allow. */
  datatype Action = ActionUnset | ActionAllow | ActionDeny

  datatype EnforcementMode = EnforcementUnset | Enforce | Audit | Disabled

  datatype ModelPermission = ModelPermission(
    provider: string, model: string, action: Action, credentialRef: Option<string>)

  datatype TokenQuota = TokenQuota(
    tokensPerMinute: Option<int>, requestsPerMinute: Option<int>,
    tokensPerDay: Option<int>, tokensPerMonth: Option<int>)

  /** Gateway integrations are copied around, never inspected, by the resolver. */
  datatype GatewayIntegration = GatewayIntegration(description: string)

  datatype ClusterTokenPolicy = ClusterTokenPolicy(
    name: string, namespaceSelector: Option<LabelSelector>, models: seq<ModelPermission>,
    quota: Option<TokenQuota>, enforcement: EnforcementMode,
    defaultCredentialRef: Option<string>, gateway: Option<GatewayIntegration>)

  datatype TokenPolicy = TokenPolicy(
    namespace: string, name: string, selector: Option<WorkloadSelector>, models: seq<ModelPermission>,
    quota: Option<TokenQuota>, enforcement: EnforcementMode, priority: int,
    gateway: Option<GatewayIntegration>)

  // ---- Claims and credentials ----

  datatype ModelRequest = ModelRequest(provider: string, model: string, credentialRef: Option<string>)

  datatype ModelClaim = ModelClaim(
    namespace: string, name: string, selector: Option<WorkloadSelector>, models: seq<ModelRequest>)

  datatype InjectionMode = InjectUnset | InjectNone | InjectEnv | InjectProjectedVolume

  datatype Injection = Injection(mode: InjectionMode, envName: string, mountPath: string)

  datatype SecretRef = SecretRef(namespace: string, name: string, key: string)

  datatype ModelCredential = ModelCredential(
    provider: string, secretRef: SecretRef, allowedNamespaces: seq<string>,
    namespaceSelector: Option<LabelSelector>, injection: Option<Injection>, capacity: Option<TokenQuota>)

  datatype EffectiveModel = EffectiveModel(
    provider: string, model: string, action: Action, credential: string, source: string)

  const MANAGED_SECRET_PREFIX := "tc-cred-"
}
