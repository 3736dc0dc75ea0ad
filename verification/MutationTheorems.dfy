/** When the mutating webhook binds credentials and what it writes, over the fields of pods and credentials. */
module MutationTheorems {
  import opened Wrappers
  import opened Strings
  import opened StringTheorems
  import opened Api
  import opened Resolver
  import opened SelectionTheorems
  import opened Declarations
  import opened ClusterState
  import opened PodValidation
  import opened AdmissionTheorems
  import opened PodInjection

  // ---- When binding is reached ----

  ghost predicate OptedOut(pod: PodValue) {
    ("governance.tokencontrol.io/inject-credentials-disabled", "true") in pod.annotations.Items
  }

  /** What admission reads of the pod. */
  ghost function ReadOf(pod: PodValue): PodIdentity {
    PodIdentity(pod.namespace, pod.labels, pod.serviceAccountName,
                if "governance.tokencontrol.io/models" in pod.annotations
                then pod.annotations["governance.tokencontrol.io/models"] else "")
  }

  /** Some claim that selects the pod, or its annotation, declares a model with two nonblank parts. */
  ghost predicate SomethingDeclared(st: Cluster, ns: string, pod: PodIdentity) {
    exists d :: Declares(Within(st, ns).1, pod.labels, RunsAs(pod), pod.models, d)
                && TrimSpace(d.provider) != "" && TrimSpace(d.model) != ""
  }

  /** Binding is reached, with this resolution. */
  ghost predicate Binds(cfg: Config, st: Cluster, requestNamespace: string, pod: PodValue, e: Resolved) {
    var ns, id := ScopeOf(requestNamespace, ReadOf(pod)), ReadOf(pod);
    && Looked(cfg, ns) && !OptedOut(pod) && Readable(st, ns) && Resolve(PodInput(st, ns, id)) == Ok(e)
    && SomethingDeclared(st, ns, id) && e.governed
  }

  /** A pod that opts out by its annotation is left exactly as it is. */
  lemma OptedOutIsUntouched(cfg: Config, st: Cluster, requestNamespace: string, pod: PodValue)
    requires OptedOut(pod)
    ensures Default(cfg, st, requestNamespace, pod) == Outcome(pod, false)
  {
    OptOutExactly(pod);
  }

  lemma OptOutExactly(pod: PodValue)
    ensures OptedOut(pod) <==> pod.Annotation(ANNOTATION_INJECTION_DISABLED) == "true"
  {
    if ANNOTATION_INJECTION_DISABLED in pod.annotations {
      assert (ANNOTATION_INJECTION_DISABLED, pod.annotations[ANNOTATION_INJECTION_DISABLED]) in pod.annotations.Items;
    }
  }

  lemma DeclaredSomething(st: Cluster, ns: string, pod: PodIdentity)
    ensures Merge(Cleaned(RawFor(st, ns, pod))) != [] <==> SomethingDeclared(st, ns, pod)
  {
    var raw := RawFor(st, ns, pod);
    WithinExactly(st, ns);
    forall d ensures d in raw <==> Declares(Within(st, ns).1, pod.labels, RunsAs(pod), pod.models, d) {
      DeclaresExactly(ClaimsIn(st, ns), pod.labels, RunsAs(pod), pod.models, d);
    }
    if Merge(Cleaned(raw)) != [] {
      var d := OriginOf(raw, Merge(Cleaned(raw))[0]);
    }
    if d :| d in raw && NonBlank(d) {
      var m := RepresentativeOf(raw, d);
    }
  }

  lemma InjectsExactly(cfg: Config, st: Cluster, requestNamespace: string, pod: PodValue, ds: seq<Declared>,
                       e: Resolved)
    ensures Injects(cfg, st, requestNamespace, pod) == Some((ds, e)) <==>
            Binds(cfg, st, requestNamespace, pod, e)
            && ds == Merge(Cleaned(RawFor(st, ScopeOf(requestNamespace, ReadOf(pod)), ReadOf(pod))))
  {
    var id := ReadOf(pod);
    var ns := ScopeOf(requestNamespace, id);
    assert pod.Identity() == id && NamespaceOf(requestNamespace, id) == ns && (Exempt(cfg, ns) <==> !Looked(cfg, ns));
    OptOutExactly(pod);
    ResolutionByFields(st, ns, id);
    DeclaredSomething(st, ns, id);
  }

  /**
   Binding is reached exactly if the scope is looked at, the pod does not opt out, everything can be read, the
   policies resolve, something is declared and some policy governs the pod. Otherwise the pod stays as it is.
   */
  lemma BindsExactly(cfg: Config, st: Cluster, requestNamespace: string, pod: PodValue)
    ensures var ns := ScopeOf(requestNamespace, ReadOf(pod));
            var ds := Merge(Cleaned(RawFor(st, ns, ReadOf(pod))));
            if e :| Binds(cfg, st, requestNamespace, pod, e)
            then Default(cfg, st, requestNamespace, pod) == BindInto(st, ns, pod, e, ds)
            else Default(cfg, st, requestNamespace, pod) == Outcome(pod, false)
  {
    var ds := Merge(Cleaned(RawFor(st, ScopeOf(requestNamespace, ReadOf(pod)), ReadOf(pod))));
    match Injects(cfg, st, requestNamespace, pod) {
      case None =>
        forall e ensures !Binds(cfg, st, requestNamespace, pod, e) {
          InjectsExactly(cfg, st, requestNamespace, pod, ds, e);
        }
      case Some((found, e)) =>
        InjectsExactly(cfg, st, requestNamespace, pod, found, e);
    }
  }

  // ---- What is written ----

  /** After a run that does not fail the two annotations are as documented and no other is touched. */
  lemma AnnotationsAfterBinding(st: Cluster, ns: string, pod: PodValue, e: Resolved, ds: seq<Declared>)
    requires !BindInto(st, ns, pod, e, ds).failed
    ensures var q, bound :=
            BindInto(st, ns, pod, e, ds).pod, Bind(st, ns, pod.body, CredentialOrder(Decide(e), ds)).bound;
            && q.body == Bind(st, ns, pod.body, CredentialOrder(Decide(e), ds)).body
            && q.Annotation("governance.tokencontrol.io/credentials-bound")
               == (if bound != [] then Join(bound, ',')
                   else pod.Annotation("governance.tokencontrol.io/credentials-bound"))
            && q.Annotation("governance.tokencontrol.io/effective-policy")
               == (if e.sources != [] then Join(e.sources, ',')
                   else pod.Annotation("governance.tokencontrol.io/effective-policy"))
            && forall k ::
                 k !in {"governance.tokencontrol.io/credentials-bound",
                        "governance.tokencontrol.io/effective-policy"} ==>
                 q.Annotation(k) == pod.Annotation(k)
  {
    assert |ANNOTATION_EFFECTIVE_POLICY| == 43 && |ANNOTATION_CREDENTIALS_BOUND| == 44;
  }

  // ---- Credentials ----

  /** The credential names the namespace, or its selector parses and is met by the namespace's labels. */
  ghost predicate Allows(mc: ModelCredential, ns: string, labels: Labels) {
    || ns in mc.allowedNamespaces
    || (mc.namespaceSelector.Some? && Parses(mc.namespaceSelector.value) && Met(mc.namespaceSelector.value, labels))
  }

  /** Whether the answer has to be read off the labels of the namespace. */
  ghost predicate AsksLabels(mc: ModelCredential, ns: string) { ns !in mc.allowedNamespaces
                                                               && mc.namespaceSelector.Some? }

  lemma AllowsExactly(st: Cluster, mc: ModelCredential, ns: string)
    ensures CredentialAuthorizes(st, mc, ns).Err? <==>
            AsksLabels(mc, ns) && (GetNamespace(ns) in st.failing || !Parses(mc.namespaceSelector.value))
    ensures CredentialAuthorizes(st, mc, ns).Ok? ==>
              CredentialAuthorizes(st, mc, ns).value == Allows(mc, ns, LabelsOfScope(st, ns))
  {
    SelectorExactly(mc.namespaceSelector, LabelsOfScope(st, ns));
  }

  /**
   A credential is bound here exactly if it can be read, exists and allows the namespace; the request fails
   exactly if it cannot be read, or the answer rests on labels that cannot or a selector that does not parse.
   */
  lemma BindableExactly(st: Cluster, ns: string, name: string, mc: ModelCredential)
    ensures Bindable(st, ns, name) == Ok(Some(mc)) <==>
            && GetCredential(name) !in st.failing && (name, mc) in st.credentials.Items
            && (AsksLabels(mc, ns) ==> GetNamespace(ns) !in st.failing) && Allows(mc, ns, LabelsOfScope(st, ns))
    ensures Bindable(st, ns, name).Err? <==>
            || GetCredential(name) in st.failing
            || (name in st.credentials && AsksLabels(st.credentials[name], ns)
                && (GetNamespace(ns) in st.failing || !Parses(st.credentials[name].namespaceSelector.value)))
  {
    if name in st.credentials {
      assert (name, st.credentials[name]) in st.credentials.Items;
      AllowsExactly(st, st.credentials[name], ns);
    }
  }

  // ---- What a credential is delivered as ----

  ghost function InjectionOf(mc: ModelCredential): Injection {
    if mc.injection.Some? then mc.injection.value else Injection(InjectUnset, "", "")
  }

  /**
   By default, and in Env mode, a credential is an env var read from key of tc-cred-<name>; in ProjectedVolume
   mode a read-only mount of a volume over that Secret, the key under the file name apikey; in None mode
   nothing. Names and paths of the credential take precedence over those derived from its provider.
   */
  lemma DeliveredAs(name: string, mc: ModelCredential)
    ensures InjectionOf(mc).mode == InjectNone ==> DeliveryOf(name, mc) == NoDelivery
    ensures InjectionOf(mc).mode in {InjectUnset, InjectEnv} ==>
              exists env :: DeliveryOf(name, mc)
                            == Delivery(None, EnvItem(EnvVar(env, SecretKeyRef("tc-cred-" + name, mc.secretRef.key))))
                            && (if InjectionOf(mc).envName != "" then env == InjectionOf(mc).envName
                                else NamedAfter(env, mc.provider))
    ensures InjectionOf(mc).mode == InjectProjectedVolume ==>
              var path := if InjectionOf(mc).mountPath != "" then InjectionOf(mc).mountPath
                          else "/var/run/secrets/tokencontrol/" + mc.provider;
              var volume := Volume("tc-cred-" + name, SecretVolume("tc-cred-" + name, mc.secretRef.key, "apikey"));
              DeliveryOf(name, mc) == Delivery(Some(volume), MountItem(VolumeMount("tc-cred-" + name, path, true)))
  {
    EnvNameNamed(mc.provider);
  }

  /** The env name that goes with each known provider, in any case. */
  ghost function KnownNames(): map<string, string> {
    map["openai" := "OPENAI_API_KEY", "azure-openai" := "OPENAI_API_KEY", "azureopenai" := "OPENAI_API_KEY",
        "anthropic" := "ANTHROPIC_API_KEY", "google" := "GOOGLE_API_KEY", "gemini" := "GOOGLE_API_KEY",
        "vertex" := "GOOGLE_API_KEY", "vertexai" := "GOOGLE_API_KEY", "bedrock" := "AWS_BEARER_TOKEN_BEDROCK",
        "aws" := "AWS_BEARER_TOKEN_BEDROCK", "cohere" := "COHERE_API_KEY", "mistral" := "MISTRAL_API_KEY",
        "groq" := "GROQ_API_KEY"]
  }

  /** A known provider's name, or else the provider in capitals with _ for -, and _API_KEY. */
  ghost predicate NamedAfter(env: string, provider: string) {
    if ToLower(provider) in KnownNames() then env == KnownNames()[ToLower(provider)]
    else
      && |env| == |provider| + 8 && env[|provider|..] == "_API_KEY"
      && forall i :: 0 <= i < |provider| ==>
           if provider[i] == '-' then env[i] == '_'
           else if provider[i] in LOWER then exists k :: 0 <= k < 26 && provider[i] == LOWER[k] && env[i] == UPPER[k]
           else env[i] == provider[i]
  }

  lemma EnvNameNamed(provider: string)
    ensures NamedAfter(DefaultEnvName(provider), provider)
  {
    if ToLower(provider) !in KnownNames() {
      var swapped := ReplaceChar(provider, '-', '_');
      var env := ToUpper(swapped) + "_API_KEY";
      ToUpperExactly(swapped);
      NotKnown(ToLower(provider));
      assert DefaultEnvName(provider) == env && env[|provider|..] == "_API_KEY";
      forall i | 0 <= i < |provider|
        ensures if provider[i] == '-' then env[i] == '_'
                else if provider[i] in LOWER then exists k ::
                  0 <= k < 26 && provider[i] == LOWER[k] && env[i] == UPPER[k]
                else env[i] == provider[i]
      {
        assert env[i] == ToUpper(swapped)[i];
        if provider[i] == '-' {
          assert swapped[i] == '_' && '_' !in LOWER;
        } else if provider[i] in LOWER {
          var k :| 0 <= k < 26 && provider[i] == LOWER[k];
        }
      }
    }
  }

  lemma NotKnown(p: string)
    requires p !in KnownNames()
    ensures p !in ["openai", "azure-openai", "azureopenai"] && p != "anthropic"
    ensures p !in ["google", "gemini", "vertex", "vertexai"] && p !in ["bedrock", "aws"]
    ensures p != "cohere" && p != "mistral" && p != "groq"
  {
  }
}
