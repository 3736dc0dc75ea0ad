/** Admission-time injection and replication agree on who may use a credential and where its copy is. */
module BindingTheorems {
  import opened Wrappers
  import opened Api
  import opened ClusterState
  import opened PodInjection
  import opened InjectionTheorems
  import opened DeliveryTheorems
  import opened Sorting
  import opened Resolver
  import opened Declarations
  import opened PodValidation
  import opened Claims
  import opened Replication

  ghost predicate MalformedSelector(mc: ModelCredential) {
    mc.namespaceSelector.Some? && !WellFormedSelector(mc.namespaceSelector.value)
  }

  /** Admission and replication both fail to decide about a namespace, or give the same answer. */
  ghost predicate TestsAgree(st: Cluster, mc: ModelCredential, namespace: string) {
    match (CredentialAuthorizes(st, mc, namespace), Authorized(mc, st.namespaces))
    case (Ok(may), Ok(authorized)) => may <==> namespace in authorized
    case (Err(_), Err(_)) => true
    case _ => false
  }

  /**
   The two authorization tests agree exactly unless an explicitly allowed namespace meets a malformed
   selector, or, where no such namespace exists, the selector matches empty labels or is malformed with
   nothing to test it on.
   */
  lemma AuthorizationAgreesExactly(st: Cluster, mc: ModelCredential, namespace: string)
    requires GetNamespace(namespace) !in st.failing
    ensures TestsAgree(st, mc, namespace) <==>
            if MalformedSelector(mc) then (namespace in mc.allowedNamespaces <==> st.namespaces == map[])
            else !(namespace !in st.namespaces && namespace !in mc.allowedNamespaces
                   && mc.namespaceSelector.Some? && LabelsMatch(mc.namespaceSelector.value, map[]))
    ensures namespace in st.namespaces ==>
              (TestsAgree(st, mc, namespace) <==> !(MalformedSelector(mc) && namespace in mc.allowedNamespaces))
    ensures !MalformedSelector(mc) ==> CredentialAuthorizes(st, mc, namespace).Ok? && Authorized(mc, st.namespaces).Ok?
  {
    if namespace in st.namespaces {
      assert st.namespaces != map[];
    }
  }

  /** With a malformed selector they part: an explicitly allowed namespace may bind what is never replicated. */
  lemma MalformedSelectorDisagrees(st: Cluster, mc: ModelCredential, namespace: string)
    requires MalformedSelector(mc) && namespace in st.namespaces && namespace in mc.allowedNamespaces
    ensures CredentialAuthorizes(st, mc, namespace) == Ok(true) && Authorized(mc, st.namespaces).Err?
  {
    assert st.namespaces != map[];
  }

  // ---- What an injected item refers to ----

  ghost predicate SecretBehind(volumes: seq<Volume>, name: string, secretName: string, key: string) {
    forall v :: v in volumes && v.name == name ==>
      v.source.SecretVolume? && v.source.secretName == secretName && v.source.key == key
  }

  /** In a pod with these volumes the env var or mount reads this key of this Secret. */
  ghost predicate RefersTo(volumes: seq<Volume>, item: Item, secretName: string, key: string) {
    match item
    case EnvItem(e) => e.source == SecretKeyRef(secretName, key)
    case MountItem(m) => HasVolume(volumes, m.name) && SecretBehind(volumes, m.name, secretName, key)
  }

  /**
   The item of a credential that may be bound refers to the credential's copy, in the pod as the webhook
   leaves it, exactly unless it is a mount and the pod already had a volume of its name over something else.
   */
  lemma RefersToCopyExactly(st: Cluster, namespace: string, b: Body, order: seq<string>, k: nat)
    requires !Bind(st, namespace, b, order).failed && NoDuplicates(order) && k < |order|
    requires DeliveryHere(st, namespace, order[k]).Delivery?
    ensures var item, mc := DeliveryHere(st, namespace, order[k]).item, st.credentials[order[k]];
            RefersTo(Bind(st, namespace, b, order).body.volumes, item, MANAGED_SECRET_PREFIX + order[k],
                     mc.secretRef.key) <==>
            (item.MountItem? ==>
             SecretBehind(b.volumes, item.mount.name, MANAGED_SECRET_PREFIX + order[k], mc.secretRef.key))
  {
    var d, mc := DeliveryHere(st, namespace, order[k]), st.credentials[order[k]];
    if d.item.MountItem? {
      var name, after := d.item.mount.name, Bind(st, namespace, b, order).body.volumes;
      forall v: Volume | v.name == name
        ensures v in after <==> v in b.volumes || (!HasVolume(b.volumes, name) && v == d.volume.value)
      {
        VolumeExactly(st, namespace, b, order, k, v);
      }
      BindSettlesOne(st, namespace, b, order, k);
      VolumeOfName(after, name);
      VolumeOfName(b.volumes, name);
    }
  }

  lemma BindSettlesOne(st: Cluster, namespace: string, b: Body, order: seq<string>, k: nat)
    requires !Bind(st, namespace, b, order).failed && k < |order|
    ensures Settled(Bind(st, namespace, b, order).body, DeliveryHere(st, namespace, order[k]))
  {
    BindSettles(st, namespace, b, order);
  }

  lemma VolumeOfName(volumes: seq<Volume>, name: string)
    ensures HasVolume(volumes, name) <==> exists v :: v in volumes && v.name == name
  {
  }

  lemma BoundNamespaceIsTarget(st: Cluster, mc: ModelCredential, namespace: string)
    requires CredentialAuthorizes(st, mc, namespace) == Ok(true) && GetNamespace(namespace) !in st.failing
    requires namespace in st.namespaces && Authorized(mc, st.namespaces).Ok?
    ensures namespace in Authorized(mc, st.namespaces).value
  {
    assert st.namespaces != map[];
    AuthorizationAgreesExactly(st, mc, namespace);
  }

  /**
   A credential reported as bound in an existing namespace is carried by some container, and what it refers to
   is the copy there, exactly unless a volume of its name was in the way. If the copy's write succeeded, that
   copy holds exactly the source value under the key referred to, exactly unless another controller owns it.
   */
  lemma BoundCredentialIsReplicated(st: Cluster, namespace: string, b: Body, order: seq<string>, k: nat, c: Subject,
                                    w: Surroundings, pre: Store, post: Store, r: PassResult)
    requires !Bind(st, namespace, b, order).failed && NoDuplicates(order) && k < |order|
    requires order[k] in Bind(st, namespace, b, order).bound
    requires c.name == order[k] && c.name in st.credentials && c.spec == st.credentials[c.name]
    requires namespace in st.namespaces && GetNamespace(namespace) !in st.failing && w.namespaces == st.namespaces
    requires Target(c, w, pre).Some? && Pass(c, w, pre, post, r) && w.net(WriteSecret(namespace)) == Done
    ensures DeliveryHere(st, namespace, c.name).Delivery?
    ensures var item, after := DeliveryHere(st, namespace, c.name).item, Bind(st, namespace, b, order).body;
            && SomeCarries(after, item)
            && (RefersTo(after.volumes, item, c.CopyId(namespace).name, c.spec.secretRef.key) <==>
                (item.MountItem? ==>
                 SecretBehind(b.volumes, item.mount.name, c.CopyId(namespace).name, c.spec.secretRef.key)))
    ensures GoodCopy(c, post, namespace, Target(c, w, pre).value.0) <==>
            CanOwn(Lookup(pre, c.CopyId(namespace)), c.name)
    ensures GoodCopy(c, post, namespace, Target(c, w, pre).value.0) ==>
              post[c.CopyId(namespace)].data == map[c.spec.secretRef.key := Target(c, w, pre).value.0]
  {
    BoundOrigin(st, namespace, b, order, c.name);
    BoundIsCarried(st, namespace, b, order, k);
    RefersToCopyExactly(st, namespace, b, order, k);
    var (value, authorized) := Target(c, w, pre).value;
    BoundNamespaceIsTarget(st, c.spec, namespace);
    GoodCopyExactly(c, w, pre, post, r, value, authorized, namespace);
  }

  /** A credential bound through a mount of a volume that the pod already had for a purpose of its own. */
  lemma BoundToForeignVolume() returns (st: Cluster, b: Body)
    ensures var r := Bind(st, "dev", b, ["a"]);
            && !r.failed && r.bound == ["a"] && r.body.volumes == b.volumes
            && DeliveryHere(st, "dev", "a").Delivery? && SomeCarries(r.body, DeliveryHere(st, "dev", "a").item)
            && forall secretName, key :: !RefersTo(r.body.volumes, DeliveryHere(st, "dev", "a").item, secretName, key)
  {
    var mc := ModelCredential("openai", SecretRef("", "source", "key"), ["dev"], None,
                              Some(Injection(InjectProjectedVolume, "", "/keys")), None);
    st := Cluster([], [], [], map["a" := mc], map[], {});
    var c, v := Container("app", [], []), Volume("tc-cred-a", OtherVolume("emptyDir"));
    b := Body([c], [], [v]);
    assert "dev" in mc.allowedNamespaces && ["a"][..0] == [];
    var d := DeliveryOf("a", mc);
    assert b.volumes[0].name == d.item.mount.name && !Has(b.containers[0], d.item);
    assert Bind(st, "dev", b, ["a"]) == Binding(Inject(b, d), ["a"], false);
    assert Carries(Inject(b, d).containers[0], d.item);
  }

  // ---- The credential a claim's preview reports, and the one considered for its pods ----

  lemma {:induction false} FirstCredentialFound(fs: seq<Verdicts>, m: ModelRequest, i: nat)
    requires i < |fs| && Names(fs[i], m, true) != ""
    ensures FirstCredential(fs, m) != ""
  {
    if i < |fs| - 1 {
      assert fs[..|fs| - 1][i] == fs[i];
      FirstCredentialFound(fs[..|fs| - 1], m, i);
    }
  }

  /** The verdicts the preview puts together, one for each of the claim's identities. */
  function PreviewVerdicts(claim: ModelClaim, base: ResolveInput): seq<Verdicts>
    requires ResolveClaim(claim, base).Ok?
  {
    AllVerdicts(ResolveAll(base, ClaimIdentities(claim.selector)).value)
  }

  lemma PodAmongVerdicts(claim: ModelClaim, st: Cluster, namespace: string, base: ResolveInput, pod: PodIdentity,
                         e: Resolved)
    returns (i: nat)
    requires GatherInput(st, namespace, NO_IDENTITY) == Ok(base) && ResolveClaim(claim, base).Ok?
    requires claim.selector.Some? && AccountOf(pod) in claim.selector.value.serviceAccounts
    requires pod.labels == ListedLabels(claim.selector) && ResolveEffective(st, namespace, WorkloadOf(pod)) == Ok(e)
    ensures i < |PreviewVerdicts(claim, base)| && PreviewVerdicts(claim, base)[i] == Decide(e)
  {
    var ids := ClaimIdentities(claim.selector);
    var id := ListedIdentity(claim, base, pod);
    i :| 0 <= i < |ids| && ids[i] == id;
    ResolveAllEach(base, ids);
    GatherWith(st, namespace, base, WorkloadOf(pod));
    assert Resolves(base, id, ResolveAll(base, ids).value[i]);
  }

  /**
   For a pod with the claim's labels and a listed account, the credential reported for an allowed request is
   the one Default considers exactly if: the first of the listed accounts for which the hierarchy names a
   credential gets the pod's own, when the pod's has one; and otherwise the preference first stated for the
   model, be it by another claim, is the one reported.
   */
  lemma PreviewedCredentialExactly(claim: ModelClaim, st: Cluster, namespace: string, base: ResolveInput,
                                   pod: PodIdentity,
                                   k: nat, e: Resolved)
    requires GatherInput(st, namespace, NO_IDENTITY) == Ok(base)
    requires ResolveClaim(claim, base).Ok? && k < |claim.models|
             && ResolveClaim(claim, base).value[k].action == ActionAllow
    requires claim.selector.Some? && AccountOf(pod) in claim.selector.value.serviceAccounts
    requires pod.labels == ListedLabels(claim.selector) && ResolveEffective(st, namespace, WorkloadOf(pod)) == Ok(e)
    ensures var m, raw := claim.models[k], RawFor(st, namespace, pod);
            var d := RequestDeclared(m);
            var own, named :=
              Permit(e, m.provider, m.model).credential, FirstCredential(PreviewVerdicts(claim, base), m);
            var preferred := Preference(Cleaned(raw), DeclaredKey(Trim(d)));
            ResolveClaim(claim, base).value[k].credential == CalledFor(e, raw, d) <==>
            if own != "" then named == own
            else if named != "" then named == preferred else CredentialName(m.credentialRef) == preferred
  {
    var m, fs := claim.models[k], PreviewVerdicts(claim, base);
    var i := PodAmongVerdicts(claim, st, namespace, base, pod, e);
    assert ResolveClaim(claim, base).value[k] == ResolvedRequest(fs, m);
    assert EveryoneMay(fs, m) && fs[i](m.provider, m.model).allowed;
    if Permit(e, m.provider, m.model).credential != "" {
      FirstCredentialFound(fs, m, i);
    }
  }

  /** With one listed account they agree exactly unless the hierarchy names none and another preference came first. */
  lemma PreviewedCredentialOfOneAccount(claim: ModelClaim, st: Cluster, namespace: string, base: ResolveInput,
                                        pod: PodIdentity, k: nat, e: Resolved)
    requires GatherInput(st, namespace, NO_IDENTITY) == Ok(base)
    requires ResolveClaim(claim, base).Ok? && k < |claim.models|
             && ResolveClaim(claim, base).value[k].action == ActionAllow
    requires claim.selector.Some? && claim.selector.value.serviceAccounts == [AccountOf(pod)]
    requires pod.labels == ListedLabels(claim.selector) && ResolveEffective(st, namespace, WorkloadOf(pod)) == Ok(e)
    ensures var m, raw := claim.models[k], RawFor(st, namespace, pod);
            var d := RequestDeclared(m);
            ResolveClaim(claim, base).value[k].credential == CalledFor(e, raw, d) <==>
            Permit(e, m.provider, m.model).credential != ""
            || Preference(Cleaned(raw), DeclaredKey(Trim(d))) == CredentialName(m.credentialRef)
  {
    var m, fs := claim.models[k], PreviewVerdicts(claim, base);
    PreviewedCredentialExactly(claim, st, namespace, base, pod, k, e);
    var i := PodAmongVerdicts(claim, st, namespace, base, pod, e);
    ResolveAllEach(base, ClaimIdentities(claim.selector));
    assert fs == [Decide(e)] && fs[..0] == [];
    assert ResolveClaim(claim, base).value[k] == ResolvedRequest(fs, m);
    assert EveryoneMay(fs, m) && fs[0](m.provider, m.model).allowed;
  }
}
