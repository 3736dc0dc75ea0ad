/** The mutating webhook as it runs: a pod object whose containers, volumes and annotations change in place. */
module PodMutation {
  import opened Wrappers
  import opened Strings
  import opened FirstOccurrences
  import opened Api
  import opened Resolver
  import opened ResolverEngine
  import opened Declarations
  import opened ClusterState
  import opened PodValidation
  import opened PodInjection

  class Pod {
    const namespace: string
    const labels: Labels
    const serviceAccountName: string
    var annotations: map<string, string>
    const containers: array<Container>
    const initContainers: array<Container>
    var volumes: seq<Volume>

    constructor (namespace: string, labels: Labels, serviceAccountName: string, annotations: map<string, string>,
                 containers: array<Container>, initContainers: array<Container>, volumes: seq<Volume>)
      requires containers != initContainers
      ensures Valid() && this.containers == containers && this.initContainers == initContainers
      ensures Value() == PodValue(namespace, labels, serviceAccountName, annotations,
                                  PodInjection.Body(containers[..], initContainers[..], volumes))
    {
      this.namespace, this.labels, this.serviceAccountName := namespace, labels, serviceAccountName;
      this.annotations, this.volumes := annotations, volumes;
      this.containers, this.initContainers := containers, initContainers;
    }

    ghost predicate Valid() { containers != initContainers }

    function Body(): Body
      reads this, containers, initContainers
    {
      PodInjection.Body(containers[..], initContainers[..], volumes)
    }

    function Value(): PodValue
      reads this, containers, initContainers
    {
      PodValue(namespace, labels, serviceAccountName, annotations, Body())
    }

    method AddVolume(v: Volume)
      modifies this`volumes
      ensures volumes == WithVolume(old(volumes), Some(v))
    {
      if !HasVolume(volumes, v.name) {
        volumes := volumes + [v];
      }
    }

    /** injectCredential: true iff some container gained the credential. */
    method InjectCredential(name: string, mc: ModelCredential) returns (reported: bool)
      requires Valid()
      modifies this`volumes, containers, initContainers
      ensures Body() == Inject(old(Body()), DeliveryOf(name, mc))
      ensures reported == Reports(old(Body()), DeliveryOf(name, mc))
    {
      var d := DeliveryOf(name, mc);
      if d.NoDelivery? {
        return false;
      }
      if d.volume.Some? {
        AddVolume(d.volume.value);
      }
      var first := Apply(containers, d.item);
      var second := Apply(initContainers, d.item);
      return first || second;
    }

    method SetAnnotation(key: string, value: string)
      modifies this`annotations
      ensures annotations == old(annotations)[key := value]
    {
      annotations := annotations[key := value];
    }

    method BindAll(st: Cluster, namespace: string, order: seq<string>) returns (bound: seq<string>, failed: bool)
      requires Valid()
      modifies this`volumes, containers, initContainers
      ensures Binding(Body(), bound, failed) == Bind(st, namespace, old(Body()), order)
    {
      bound, failed := [], false;
      for i := 0 to |order|
        invariant !failed && Binding(Body(), bound, failed) == Bind(st, namespace, old(Body()), order[..i])
      {
        assert order[..i + 1][..i] == order[..i];
        match Bindable(st, namespace, order[i])
        case Err(_) =>
          failed := true;
          FailureSticks(st, namespace, old(Body()), order, i + 1);
          return;
        case Ok(None) =>
        case Ok(Some(mc)) =>
          var reported := InjectCredential(order[i], mc);
          if reported {
            bound := bound + [order[i]];
          }
      }
      assert order[..|order|] == order;
    }

    method BindInto(st: Cluster, namespace: string, eff: Effective, declared: seq<Declared>) returns (failed: bool)
      requires Valid()
      modifies this`annotations, this`volumes, containers, initContainers
      ensures Outcome(Value(), failed) == PodInjection.BindInto(st, namespace, old(Value()), old(eff.View()), declared)
    {
      var sources := eff.sources;
      var order := OrderCredentials(eff, declared);
      var bound;
      bound, failed := BindAll(st, namespace, order);
      if failed {
        return;
      }
      if |bound| > 0 {
        SetAnnotation(ANNOTATION_CREDENTIALS_BOUND, Join(bound, ','));
      }
      if |sources| > 0 {
        SetAnnotation(ANNOTATION_EFFECTIVE_POLICY, Join(sources, ','));
      }
    }

    method Default(cfg: Config, st: Cluster, requestNamespace: string) returns (failed: bool)
      requires Valid()
      modifies this`annotations, this`volumes, containers, initContainers
      ensures Outcome(Value(), failed) == PodInjection.Default(cfg, st, requestNamespace, old(Value()))
    {
      var identity := Value().Identity();
      var namespace := NamespaceOf(requestNamespace, identity);
      failed := false;
      if Exempt(cfg, namespace) || Value().Annotation(ANNOTATION_INJECTION_DISABLED) == "true" {
        return;
      }
      if ListClaims(namespace) in st.failing {
        return;
      }
      var declared := DeclaredModelsForPod(ClaimsIn(st, namespace), labels, AccountOf(identity), identity.models);
      if |declared| == 0 {
        return;
      }
      var resolved := ResolveFor(st, namespace, WorkloadOf(identity));
      if resolved.Err? || !resolved.value.governed {
        return;
      }
      failed := BindInto(st, namespace, resolved.value, declared);
    }
  }

  lemma {:induction false} FailureSticks(st: Cluster, namespace: string, body: Body, order: seq<string>, k: nat)
    requires k <= |order| && Bind(st, namespace, body, order[..k]).failed
    ensures Bind(st, namespace, body, order) == Bind(st, namespace, body, order[..k])
  {
    if k == |order| {
      assert order[..k] == order;
    } else {
      assert order[..|order| - 1][..k] == order[..k];
      FailureSticks(st, namespace, body, order[..|order| - 1], k);
    }
  }

  /** The `apply` closures of injectEnv and injectVolume. */
  method Apply(cs: array<Container>, item: Item) returns (changed: bool)
    modifies cs
    ensures cs[..] == FitAll(old(cs[..]), item)
    ensures changed == SomeLack(old(cs[..]), item)
  {
    changed := false;
    for i := 0 to cs.Length
      invariant forall j :: 0 <= j < i ==> cs[j] == Fit(old(cs[j]), item)
      invariant forall j :: i <= j < cs.Length ==> cs[j] == old(cs[j])
      invariant changed == exists j :: 0 <= j < i && !Has(old(cs[j]), item)
    {
      if Has(cs[i], item) {
        continue;
      }
      cs[i] := Append(cs[i], item);
      changed := true;
    }
    ghost var was := old(cs[..]);
    assert forall j :: 0 <= j < cs.Length ==> was[j] == old(cs[j]);
  }

  /** The ordered, unique set of credentials to bind. */
  method OrderCredentials(eff: Effective, declared: seq<Declared>) returns (order: seq<string>)
    ensures order == CredentialOrder(Decide(eff.View()), declared)
  {
    ghost var f := Decide(eff.View());
    order := [];
    var seen: set<string> := {};
    for i := 0 to |declared|
      invariant order == CredentialOrder(f, declared[..i])
      invariant forall x :: x in seen <==> x in Candidates(f, declared[..i])
    {
      assert declared[..i + 1][..i] == declared[..i];
      var dec := eff.Permit(declared[i].provider, declared[i].model);
      assert dec == f(declared[i].provider, declared[i].model);
      ghost var before := Candidates(f, declared[..i]);
      assert before + [] == before;
      if !dec.allowed {
        continue;
      }
      var cred := dec.credential;
      if cred == "" {
        cred := declared[i].credential;
      }
      if cred != "" {
        assert Candidates(f, declared[..i + 1]) == before + [cred];
        FirstsAppend(Itself, before, cred);
        assert cred in seen <==> cred in KeySet(Itself, before);
        if cred !in seen {
          seen := seen + {cred};
          order := order + [cred];
        }
      }
    }
    assert declared[..|declared|] == declared;
  }
}
