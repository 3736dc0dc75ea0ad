/** The mutating pod webhook: which credentials are bound, and how they are written into the pod. */
module PodInjection {
  import opened Wrappers
  import opened Strings
  import opened FirstOccurrences
  import opened Api
  import opened Resolver
  import opened Declarations
  import opened ClusterState
  import opened PodValidation

  const ANNOTATION_EFFECTIVE_POLICY := "governance.tokencontrol.io/effective-policy"
  const ANNOTATION_CREDENTIALS_BOUND := "governance.tokencontrol.io/credentials-bound"
  const ANNOTATION_INJECTION_DISABLED := "governance.tokencontrol.io/inject-credentials-disabled"

  // ---- Pods ----

  datatype EnvSource = LiteralValue(value: string) | SecretKeyRef(secretName: string, key: string)

  datatype EnvVar = EnvVar(name: string, source: EnvSource)

  datatype VolumeMount = VolumeMount(name: string, mountPath: string, readOnly: bool)

  datatype VolumeSource = OtherVolume(description: string) | SecretVolume(secretName: string, key: string, path: string)

  datatype Volume = Volume(name: string, source: VolumeSource)

  datatype Container = Container(name: string, env: seq<EnvVar>, volumeMounts: seq<VolumeMount>)

  datatype Body = Body(containers: seq<Container>, initContainers: seq<Container>, volumes: seq<Volume>)

  datatype PodValue = PodValue(
    namespace: string, labels: Labels, serviceAccountName: string, annotations: map<string, string>, body: Body)
  {
    function Annotation(key: string): string { if key in annotations then annotations[key] else "" }

    function Identity(): PodIdentity {
      PodIdentity(namespace, labels, serviceAccountName, Annotation(ANNOTATION_MODELS))
    }
  }

  // ---- What one credential adds ----

  /** The item injectEnv or injectVolume appends to every container that lacks one of that name. */
  datatype Item = EnvItem(env: EnvVar) | MountItem(mount: VolumeMount)

  datatype Delivery = NoDelivery | Delivery(volume: Option<Volume>, item: Item)

  function DefaultEnvName(provider: string): string {
    var p := ToLower(provider);
    if p in ["openai", "azure-openai", "azureopenai"] then "OPENAI_API_KEY"
    else if p == "anthropic" then "ANTHROPIC_API_KEY"
    else if p in ["google", "gemini", "vertex", "vertexai"] then "GOOGLE_API_KEY"
    else if p in ["bedrock", "aws"] then "AWS_BEARER_TOKEN_BEDROCK"
    else if p == "cohere" then "COHERE_API_KEY"
    else if p == "mistral" then "MISTRAL_API_KEY"
    else if p == "groq" then "GROQ_API_KEY"
    else ToUpper(ReplaceChar(provider, '-', '_')) + "_API_KEY"
  }

  function ModeOf(mc: ModelCredential): InjectionMode {
    if mc.injection.Some? && mc.injection.value.mode != InjectUnset then mc.injection.value.mode else InjectEnv
  }

  function EnvNameOf(mc: ModelCredential): string {
    if mc.injection.Some? && mc.injection.value.envName != "" then mc.injection.value.envName
    else DefaultEnvName(mc.provider)
  }

  function MountPathOf(mc: ModelCredential): string {
    if mc.injection.Some? && mc.injection.value.mountPath != "" then mc.injection.value.mountPath
    else "/var/run/secrets/tokencontrol/" + mc.provider
  }

  function DeliveryOf(name: string, mc: ModelCredential): Delivery {
    var secretName := MANAGED_SECRET_PREFIX + name;
    match ModeOf(mc)
    case InjectNone => NoDelivery
    case InjectProjectedVolume =>
      Delivery(Some(Volume("tc-cred-" + name, SecretVolume(secretName, mc.secretRef.key, "apikey"))),
               MountItem(VolumeMount("tc-cred-" + name, MountPathOf(mc), true)))
    case _ => Delivery(None, EnvItem(EnvVar(EnvNameOf(mc), SecretKeyRef(secretName, mc.secretRef.key))))
  }

  predicate HasEnv(env: seq<EnvVar>, name: string) { exists i :: 0 <= i < |env| && env[i].name == name }

  predicate HasMount(mounts: seq<VolumeMount>, name: string) { exists i :: 0 <= i < |mounts| && mounts[i].name == name }

  predicate HasVolume(volumes: seq<Volume>, name: string) { exists i :: 0 <= i < |volumes| && volumes[i].name == name }

  predicate Has(c: Container, item: Item) {
    match item
    case EnvItem(e) => HasEnv(c.env, e.name)
    case MountItem(m) => HasMount(c.volumeMounts, m.name)
  }

  function Append(c: Container, item: Item): Container {
    match item
    case EnvItem(e) => c.(env := c.env + [e])
    case MountItem(m) => c.(volumeMounts := c.volumeMounts + [m])
  }

  function Fit(c: Container, item: Item): Container { if Has(c, item) then c else Append(c, item) }

  function FitAll(cs: seq<Container>, item: Item): seq<Container> {
    seq(|cs|, i requires 0 <= i < |cs| => Fit(cs[i], item))
  }

  predicate SomeLack(cs: seq<Container>, item: Item) { exists i :: 0 <= i < |cs| && !Has(cs[i], item) }

  function WithVolume(volumes: seq<Volume>, v: Option<Volume>): seq<Volume> {
    if v.Some? && !HasVolume(volumes, v.value.name) then volumes + [v.value] else volumes
  }

  function Inject(b: Body, d: Delivery): Body {
    match d
    case NoDelivery => b
    case Delivery(v, item) =>
      Body(FitAll(b.containers, item), FitAll(b.initContainers, item), WithVolume(b.volumes, v))
  }

  /** What injectCredential returns: some container gained the item. */
  predicate Reports(b: Body, d: Delivery) {
    d.Delivery? && (SomeLack(b.containers, d.item) || SomeLack(b.initContainers, d.item))
  }

  // ---- Which credentials are bound, in which order ----

  /** The policy's credential wins; the declaration's preference is the fallback. */
  function CandidateCredential(f: Verdicts, d: Declared): string {
    var dec := f(d.provider, d.model);
    if !dec.allowed then "" else if dec.credential != "" then dec.credential else d.credential
  }

  function Candidates(f: Verdicts, ds: seq<Declared>): seq<string> {
    if ds == [] then []
    else
      var c := CandidateCredential(f, ds[|ds| - 1]);
      Candidates(f, ds[..|ds| - 1]) + (if c == "" then [] else [c])
  }

  function CredentialOrder(f: Verdicts, ds: seq<Declared>): seq<string> { Firsts(Itself, Candidates(f, ds)) }

  // ---- Binding them ----

  /** Whether a credential may be bound here: None means it is skipped, Err aborts the request. */
  function Bindable(st: Cluster, namespace: string, name: string): Result<Option<ModelCredential>, Failure> {
    if GetCredential(name) in st.failing then Err(ReadFailed(GetCredential(name)))
    else if name !in st.credentials then Ok(None)
    else
      match CredentialAuthorizes(st, st.credentials[name], namespace)
      case Err(e) => Err(e)
      case Ok(b) => Ok(if b then Some(st.credentials[name]) else None)
  }

  datatype Binding = Binding(body: Body, bound: seq<string>, failed: bool)

  function Bind(st: Cluster, namespace: string, body: Body, order: seq<string>): Binding {
    if order == [] then Binding(body, [], false)
    else
      var earlier := Bind(st, namespace, body, order[..|order| - 1]);
      var name := order[|order| - 1];
      if earlier.failed then earlier
      else
        match Bindable(st, namespace, name)
        case Err(_) => earlier.(failed := true)
        case Ok(None) => earlier
        case Ok(Some(mc)) =>
          var d := DeliveryOf(name, mc);
          var bound := if Reports(earlier.body, d) then earlier.bound + [name] else earlier.bound;
          Binding(Inject(earlier.body, d), bound, false)
  }

  // ---- Default ----

  datatype Outcome = Outcome(pod: PodValue, failed: bool)

  function Annotate(annotations: map<string, string>, bound: seq<string>, sources: seq<string>): map<string, string> {
    var a := if bound != [] then annotations[ANNOTATION_CREDENTIALS_BOUND := Join(bound, ',')] else annotations;
    if sources != [] then a[ANNOTATION_EFFECTIVE_POLICY := Join(sources, ',')] else a
  }

  function BindInto(st: Cluster, namespace: string, pod: PodValue, e: Resolved, ds: seq<Declared>): Outcome {
    var b := Bind(st, namespace, pod.body, CredentialOrder(Decide(e), ds));
    if b.failed then Outcome(pod.(body := b.body), true)
    else Outcome(pod.(body := b.body, annotations := Annotate(pod.annotations, b.bound, e.sources)), false)
  }

  /** Some(ds, e) when the webhook gets as far as binding credentials. */
  function Injects(cfg: Config, st: Cluster, requestNamespace: string, pod: PodValue)
    : Option<(seq<Declared>, Resolved)>
  {
    var namespace := NamespaceOf(requestNamespace, pod.Identity());
    if Exempt(cfg, namespace) || pod.Annotation(ANNOTATION_INJECTION_DISABLED) == "true" then None
    else
      match DeclaredFor(st, namespace, pod.Identity())
      case Err(_) => None
      case Ok(ds) =>
        if ds == [] then None
        else
          match ResolveEffective(st, namespace, WorkloadOf(pod.Identity()))
          case Err(_) => None
          case Ok(e) => if e.governed then Some((ds, e)) else None
  }

  function Default(cfg: Config, st: Cluster, requestNamespace: string, pod: PodValue): Outcome {
    match Injects(cfg, st, requestNamespace, pod)
    case None => Outcome(pod, false)
    case Some((ds, e)) => BindInto(st, NamespaceOf(requestNamespace, pod.Identity()), pod, e, ds)
  }
}
