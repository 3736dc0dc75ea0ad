/**
 The cluster a webhook request or a reconcile reads. `failing` lists the calls that return an error; a call
 has one outcome for the whole request.
 */
module ClusterState {
  import opened Wrappers
  import opened Sorting
  import opened Api
  import opened Resolver

  datatype ReadCall =
    | ListClusterPolicies
    | ListTokenPolicies(namespace: string)
    | ListClaims(namespace: string)
    | GetNamespace(name: string)
    | GetCredential(name: string)

  datatype Failure = ReadFailed(call: ReadCall) | Unresolvable(error: ResolveError) | BadSelector

  datatype Cluster = Cluster(
    clusterPolicies: seq<ClusterTokenPolicy>, tokenPolicies: seq<TokenPolicy>, claims: seq<ModelClaim>,
    credentials: map<string, ModelCredential>, namespaces: map<string, Labels>, failing: set<ReadCall>)

  function PolicyIn(namespace: string): TokenPolicy -> bool { (p: TokenPolicy) => p.namespace == namespace }

  function ClaimIn(namespace: string): ModelClaim -> bool { (c: ModelClaim) => c.namespace == namespace }

  function PoliciesIn(st: Cluster, namespace: string): seq<TokenPolicy> {
    Filter(PolicyIn(namespace), st.tokenPolicies)
  }

  function ClaimsIn(st: Cluster, namespace: string): seq<ModelClaim> { Filter(ClaimIn(namespace), st.claims) }

  /** A namespace that does not exist has no labels. */
  function NamespaceLabels(st: Cluster, name: string): Result<Labels, Failure> {
    if GetNamespace(name) in st.failing then Err(ReadFailed(GetNamespace(name)))
    else if name in st.namespaces then Ok(st.namespaces[name])
    else Ok(map[])
  }

  /** The input resolveEffective hands to Resolve, once its three reads succeed. */
  function GatherInput(st: Cluster, namespace: string, id: Identity): Result<ResolveInput, Failure> {
    if ListClusterPolicies in st.failing then Err(ReadFailed(ListClusterPolicies))
    else if ListTokenPolicies(namespace) in st.failing then Err(ReadFailed(ListTokenPolicies(namespace)))
    else
      match NamespaceLabels(st, namespace)
      case Err(e) => Err(e)
      case Ok(labels) => Ok(ResolveInput(st.clusterPolicies, PoliciesIn(st, namespace), namespace, labels, id))
  }

  function ResolveEffective(st: Cluster, namespace: string, id: Identity): Result<Resolved, Failure> {
    match GatherInput(st, namespace, id)
    case Err(e) => Err(e)
    case Ok(input) =>
      match Resolve(input)
      case Err(e) => Err(Unresolvable(e))
      case Ok(e) => Ok(e)
  }

  function CredentialAuthorizes(st: Cluster, mc: ModelCredential, namespace: string): Result<bool, Failure> {
    if namespace in mc.allowedNamespaces then Ok(true)
    else if mc.namespaceSelector == None then Ok(false)
    else
      match NamespaceLabels(st, namespace)
      case Err(e) => Err(e)
      case Ok(labels) =>
        match SelectorMatches(mc.namespaceSelector, labels)
        case Err(_) => Err(BadSelector)
        case Ok(b) => Ok(b)
  }
}
