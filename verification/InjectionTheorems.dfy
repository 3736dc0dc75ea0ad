/** The mutating webhook is idempotent, invisible to the validator, and only ever adds. */
module InjectionTheorems {
  import opened Wrappers
  import opened Api
  import opened FirstOccurrences
  import opened Resolver
  import opened PermitTheorems
  import opened Declarations
  import opened ClusterState
  import opened PodValidation
  import opened PodInjection

  // ---- Injecting once settles a credential for good ----

  ghost predicate AllHave(cs: seq<Container>, item: Item) { forall i :: 0 <= i < |cs| ==> Has(cs[i], item) }

  /** Nothing is left to add for this delivery. */
  ghost predicate Settled(b: Body, d: Delivery) {
    d.Delivery? ==>
      && AllHave(b.containers, d.item) && AllHave(b.initContainers, d.item)
      && (d.volume.Some? ==> HasVolume(b.volumes, d.volume.value.name))
  }

  lemma AppendKeeps(c: Container, item: Item, other: Item)
    ensures Has(Append(c, item), item)
    ensures Has(c, other) ==> Has(Append(c, item), other)
  {
    var c' := Append(c, item);
    match item {
      case EnvItem(e) => assert c'.env[|c.env|] == e && forall i :: 0 <= i < |c.env| ==> c'.env[i] == c.env[i];
      case MountItem(m) =>
        assert c'.volumeMounts[|c.volumeMounts|] == m;
        assert forall i :: 0 <= i < |c.volumeMounts| ==> c'.volumeMounts[i] == c.volumeMounts[i];
    }
  }

  lemma FitAllKeeps(cs: seq<Container>, item: Item, other: Item)
    ensures AllHave(FitAll(cs, item), item)
    ensures AllHave(cs, other) ==> AllHave(FitAll(cs, item), other)
  {
    forall i | 0 <= i < |cs|
      ensures Has(FitAll(cs, item)[i], item) && (Has(cs[i], other) ==> Has(FitAll(cs, item)[i], other))
    {
      AppendKeeps(cs[i], item, other);
    }
  }

  lemma WithVolumeKeeps(volumes: seq<Volume>, v: Option<Volume>, name: string)
    ensures v.Some? ==> HasVolume(WithVolume(volumes, v), v.value.name)
    ensures HasVolume(volumes, name) ==> HasVolume(WithVolume(volumes, v), name)
  {
    var after := WithVolume(volumes, v);
    assert forall i :: 0 <= i < |volumes| ==> after[i] == volumes[i];
    if v.Some? && !HasVolume(volumes, v.value.name) {
      assert after[|volumes|] == v.value;
    }
  }

  lemma InjectSettles(b: Body, d: Delivery, other: Delivery)
    ensures Settled(Inject(b, d), d)
    ensures Settled(b, other) ==> Settled(Inject(b, d), other)
  {
    if d.Delivery? {
      var otherItem := if other.Delivery? then other.item else d.item;
      var otherName := if other.Delivery? && other.volume.Some? then other.volume.value.name else "";
      FitAllKeeps(b.containers, d.item, otherItem);
      FitAllKeeps(b.initContainers, d.item, otherItem);
      WithVolumeKeeps(b.volumes, d.volume, otherName);
    }
  }

  lemma SettledIsFixed(b: Body, d: Delivery)
    requires Settled(b, d)
    ensures Inject(b, d) == b && !Reports(b, d)
  {
    if d.Delivery? {
      assert FitAll(b.containers, d.item) == b.containers && FitAll(b.initContainers, d.item) == b.initContainers;
    }
  }

  /** Every credential of the list that may be bound here is settled in the body. */
  ghost predicate AllSettled(st: Cluster, namespace: string, b: Body, order: seq<string>) {
    forall i :: 0 <= i < |order| ==>
      match Bindable(st, namespace, order[i])
      case Err(_) => false
      case Ok(None) => true
      case Ok(Some(mc)) => Settled(b, DeliveryOf(order[i], mc))
  }

  lemma {:induction false} BindSettles(st: Cluster, namespace: string, b: Body, order: seq<string>)
    requires !Bind(st, namespace, b, order).failed
    ensures AllSettled(st, namespace, Bind(st, namespace, b, order).body, order)
  {
    if order == [] {
    } else {
      var n := |order| - 1;
      var earlier := Bind(st, namespace, b, order[..n]);
      BindSettles(st, namespace, b, order[..n]);
      match Bindable(st, namespace, order[n]) {
        case Err(_) =>
        case Ok(None) =>
          assert forall i :: 0 <= i < n ==> order[i] == order[..n][i];
        case Ok(Some(mc)) =>
          forall i | 0 <= i < n && Bindable(st, namespace, order[i]).Ok?
            && Bindable(st, namespace, order[i]).value.Some?
            ensures Settled(Inject(earlier.body, DeliveryOf(order[n], mc)),
                            DeliveryOf(order[i], Bindable(st, namespace, order[i]).value.value))
          {
            assert order[i] == order[..n][i];
            InjectSettles(earlier.body, DeliveryOf(order[n], mc),
                          DeliveryOf(order[i], Bindable(st, namespace, order[i]).value.value));
          }
          assert forall i :: 0 <= i < n ==> order[i] == order[..n][i];
          InjectSettles(earlier.body, DeliveryOf(order[n], mc), NoDelivery);
      }
    }
  }

  lemma {:induction false} SettledBindsNothing(st: Cluster, namespace: string, b: Body, order: seq<string>)
    requires AllSettled(st, namespace, b, order)
    ensures Bind(st, namespace, b, order) == Binding(b, [], false)
  {
    if order == [] {
    } else {
      var n := |order| - 1;
      assert AllSettled(st, namespace, b, order[..n]) by {
        assert forall i :: 0 <= i < n ==> order[..n][i] == order[i];
      }
      SettledBindsNothing(st, namespace, b, order[..n]);
      var verdict := Bindable(st, namespace, order[n]);
      if verdict.Ok? && verdict.value.Some? {
        SettledIsFixed(b, DeliveryOf(order[n], verdict.value.value));
      }
    }
  }

  // ---- Default leaves alone what it and the validator read ----

  lemma AnnotateKeepsInputs(pod: PodValue, body: Body, bound: seq<string>, sources: seq<string>)
    ensures var q := pod.(body := body, annotations := Annotate(pod.annotations, bound, sources));
            && q.Identity() == pod.Identity()
            && q.Annotation(ANNOTATION_INJECTION_DISABLED) == pod.Annotation(ANNOTATION_INJECTION_DISABLED)
  {
    assert |ANNOTATION_MODELS| == 33 && |ANNOTATION_EFFECTIVE_POLICY| == 43;
    assert |ANNOTATION_CREDENTIALS_BOUND| == 44 && |ANNOTATION_INJECTION_DISABLED| == 54;
  }

  lemma DefaultKeepsInputs(cfg: Config, st: Cluster, requestNamespace: string, pod: PodValue)
    ensures var q := Default(cfg, st, requestNamespace, pod).pod;
            q.Identity() == pod.Identity()
              && Injects(cfg, st, requestNamespace, q) == Injects(cfg, st, requestNamespace, pod)
  {
    match Injects(cfg, st, requestNamespace, pod) {
      case None =>
      case Some((ds, e)) =>
        var b := Bind(st, NamespaceOf(requestNamespace, pod.Identity()), pod.body, CredentialOrder(Decide(e), ds));
        AnnotateKeepsInputs(pod, b.body, b.bound, e.sources);
    }
  }

  /** A pod the webhook has been through is left exactly as it is, annotations included. */
  lemma DefaultIsIdempotent(cfg: Config, st: Cluster, requestNamespace: string, pod: PodValue)
    requires !Default(cfg, st, requestNamespace, pod).failed
    ensures var q := Default(cfg, st, requestNamespace, pod).pod;
            Default(cfg, st, requestNamespace, q) == Outcome(q, false)
  {
    DefaultKeepsInputs(cfg, st, requestNamespace, pod);
    match Injects(cfg, st, requestNamespace, pod) {
      case None =>
      case Some((ds, e)) =>
        BindTwice(st, NamespaceOf(requestNamespace, pod.Identity()), pod, e, ds);
    }
  }

  lemma BindTwice(st: Cluster, namespace: string, pod: PodValue, e: Resolved, ds: seq<Declared>)
    requires !BindInto(st, namespace, pod, e, ds).failed
    ensures var q := BindInto(st, namespace, pod, e, ds).pod;
            BindInto(st, namespace, q, e, ds) == Outcome(q, false)
  {
    var order := CredentialOrder(Decide(e), ds);
    var b := Bind(st, namespace, pod.body, order);
    BindSettles(st, namespace, pod.body, order);
    SettledBindsNothing(st, namespace, b.body, order);
    var a := Annotate(pod.annotations, b.bound, e.sources);
    assert Annotate(a, [], e.sources) == a;
  }

  /** The validator answers the same before and after mutation, even when the mutation was cut short. */
  lemma MutationInvisibleToValidator(cfg: Config, st: Cluster, requestNamespace: string, pod: PodValue)
    ensures Response(cfg, st, requestNamespace, Default(cfg, st, requestNamespace, pod).pod.Identity())
         == Response(cfg, st, requestNamespace, pod.Identity())
  {
    DefaultKeepsInputs(cfg, st, requestNamespace, pod);
  }

  // ---- Default only adds ----

  ghost predicate ContainersGrow(before: seq<Container>, after: seq<Container>) {
    && |before| == |after|
    && forall i :: 0 <= i < |before| ==>
         && after[i].name == before[i].name && before[i].env <= after[i].env
         && before[i].volumeMounts <= after[i].volumeMounts
         && (UniqueEnv(before[i]) ==> UniqueEnv(after[i]))
  }

  ghost predicate UniqueEnv(c: Container) { forall i, j :: 0 <= i < j < |c.env| ==> c.env[i].name != c.env[j].name }

  /** Containers keep their number, names and original env and mounts as prefixes, and env names stay unique. */
  ghost predicate Grows(before: Body, after: Body) {
    && ContainersGrow(before.containers, after.containers)
    && ContainersGrow(before.initContainers, after.initContainers)
    && before.volumes <= after.volumes
  }

  lemma FitAllGrows(cs: seq<Container>, item: Item)
    ensures ContainersGrow(cs, FitAll(cs, item))
  {
    forall i | 0 <= i < |cs| && UniqueEnv(cs[i]) ensures UniqueEnv(FitAll(cs, item)[i]) {
    }
  }

  lemma GrowsTransitive(a: Body, b: Body, c: Body)
    requires Grows(a, b) && Grows(b, c)
    ensures Grows(a, c)
  {
  }

  lemma {:induction false} BindGrows(st: Cluster, namespace: string, b: Body, order: seq<string>)
    ensures Grows(b, Bind(st, namespace, b, order).body)
  {
    if order == [] {
    } else {
      var earlier, name := Bind(st, namespace, b, order[..|order| - 1]), order[|order| - 1];
      BindGrows(st, namespace, b, order[..|order| - 1]);
      var verdict := Bindable(st, namespace, name);
      if !earlier.failed && verdict.Ok? && verdict.value.Some? {
        InjectGrows(earlier.body, DeliveryOf(name, verdict.value.value));
        GrowsTransitive(b, earlier.body, Inject(earlier.body, DeliveryOf(name, verdict.value.value)));
      }
    }
  }

  lemma InjectGrows(b: Body, d: Delivery)
    ensures Grows(b, Inject(b, d))
  {
    if d.Delivery? {
      FitAllGrows(b.containers, d.item);
      FitAllGrows(b.initContainers, d.item);
    }
  }

  ghost predicate AnnotationsGrow(before: map<string, string>, after: map<string, string>) {
    && before.Keys <= after.Keys
    && forall k :: k in after && k !in {ANNOTATION_CREDENTIALS_BOUND, ANNOTATION_EFFECTIVE_POLICY} ==>
         k in before && after[k] == before[k]
  }

  lemma AnnotateGrows(annotations: map<string, string>, bound: seq<string>, sources: seq<string>)
    ensures AnnotationsGrow(annotations, Annotate(annotations, bound, sources))
  {
  }

  /** Whatever happens, the webhook appends to env, mounts and volumes and touches two annotations at most. */
  lemma DefaultOnlyAdds(cfg: Config, st: Cluster, requestNamespace: string, pod: PodValue)
    ensures var q := Default(cfg, st, requestNamespace, pod).pod;
            && Grows(pod.body, q.body)
            && q.namespace == pod.namespace && q.labels == pod.labels && q.serviceAccountName == pod.serviceAccountName
            && AnnotationsGrow(pod.annotations, q.annotations)
  {
    match Injects(cfg, st, requestNamespace, pod) {
      case None =>
      case Some((ds, e)) =>
        var namespace, order := NamespaceOf(requestNamespace, pod.Identity()), CredentialOrder(Decide(e), ds);
        BindGrows(st, namespace, pod.body, order);
        AnnotateGrows(pod.annotations, Bind(st, namespace, pod.body, order).bound, e.sources);
    }
  }

  // ---- Every bound credential is justified ----

  lemma {:induction false} CandidateOrigin(f: Verdicts, ds: seq<Declared>, name: string) returns (d: Declared)
    requires name in Candidates(f, ds)
    ensures d in ds && name != "" && CandidateCredential(f, d) == name
  {
    var n := |ds| - 1;
    if name in Candidates(f, ds[..n]) {
      d := CandidateOrigin(f, ds[..n], name);
    } else {
      d := ds[n];
    }
  }

  lemma {:induction false} BoundOrigin(st: Cluster, namespace: string, b: Body, order: seq<string>, name: string)
    requires name in Bind(st, namespace, b, order).bound
    ensures name in order && name in st.credentials
    ensures CredentialAuthorizes(st, st.credentials[name], namespace) == Ok(true)
    ensures DeliveryOf(name, st.credentials[name]).Delivery?
  {
    var n := |order| - 1;
    assert order == order[..n] + [order[n]];
    if name in Bind(st, namespace, b, order[..n]).bound {
      BoundOrigin(st, namespace, b, order[..n], name);
    }
  }

  /** The credential a raw declaration calls for: the policy's, else the first preference stated for its key. */
  ghost function CalledFor(e: Resolved, raw: seq<Declared>, d: Declared): string {
    var named := Permit(e, d.provider, d.model).credential;
    if named != "" then named else Preference(Cleaned(raw), DeclaredKey(Trim(d)))
  }

  lemma CandidateIsCalledFor(e: Resolved, raw: seq<Declared>, m: Declared, d: Declared)
    requires m in Merge(Cleaned(raw)) && d in raw && Represents(m, d) && Permit(e, d.provider, d.model).allowed
    ensures CandidateCredential(Decide(e), m) == CalledFor(e, raw, d)
  {
    var f := MergeOrigin(Cleaned(raw), m);
    PermitCongruent(e, d.provider, d.model, m.provider, m.model);
  }

  lemma {:induction false} CandidateListed(f: Verdicts, ds: seq<Declared>, m: Declared)
    requires m in ds && CandidateCredential(f, m) != ""
    ensures CandidateCredential(f, m) in Candidates(f, ds)
  {
    var n := |ds| - 1;
    assert ds == ds[..n] + [ds[n]];
    if m in ds[..n] {
      CandidateListed(f, ds[..n], m);
    }
  }

  /** A credential in the binding order is what some nonblank, permitted declaration of the pod calls for. */
  lemma OrderedCredentialJustified(st: Cluster, namespace: string, pod: PodValue, e: Resolved, name: string)
    returns (d: Declared)
    requires name in CredentialOrder(Decide(e), Merge(Cleaned(RawFor(st, namespace, pod.Identity()))))
    ensures d in RawFor(st, namespace, pod.Identity()) && NonBlank(d) && Permit(e, d.provider, d.model).allowed
    ensures name == CalledFor(e, RawFor(st, namespace, pod.Identity()), d)
  {
    var f, raw := Decide(e), RawFor(st, namespace, pod.Identity());
    var merged := Merge(Cleaned(raw));
    var at := FirstsOrigin(Itself, Candidates(f, merged));
    var i :| 0 <= i < |at| && CredentialOrder(f, merged)[i] == name;
    assert Candidates(f, merged)[at[i]] == name;
    var m := CandidateOrigin(f, merged, name);
    d := OriginOf(raw, m);
    PermitIsFaithful(e);
    assert Rejects(f, m) <==> Refused(f, d);
    CandidateIsCalledFor(e, raw, m, d);
  }

  /**
   A credential the webhook reports as bound exists, authorizes the namespace, and is what some nonblank
   declaration of the pod that the hierarchy permits calls for.
   */
  lemma BoundCredentialJustified(st: Cluster, namespace: string, pod: PodValue, e: Resolved, name: string)
    returns (d: Declared)
    requires name in Bind(st, namespace, pod.body,
                          CredentialOrder(Decide(e), Merge(Cleaned(RawFor(st, namespace, pod.Identity()))))).bound
    ensures d in RawFor(st, namespace, pod.Identity()) && NonBlank(d) && Permit(e, d.provider, d.model).allowed
    ensures name == CalledFor(e, RawFor(st, namespace, pod.Identity()), d)
    ensures name in st.credentials && CredentialAuthorizes(st, st.credentials[name], namespace) == Ok(true)
  {
    BoundOrigin(st, namespace, pod.body,
                CredentialOrder(Decide(e), Merge(Cleaned(RawFor(st, namespace, pod.Identity())))), name);
    d := OrderedCredentialJustified(st, namespace, pod, e, name);
  }

  // ---- Everything added is a delivery, reported or not ----

  /** What a credential adds here: nothing unless it exists, authorizes the namespace and is injected at all. */
  function DeliveryHere(st: Cluster, namespace: string, name: string): Delivery {
    match Bindable(st, namespace, name)
    case Ok(Some(mc)) => DeliveryOf(name, mc)
    case _ => NoDelivery
  }

  ghost function ItemsOf(st: Cluster, namespace: string, order: seq<string>): set<Item> {
    set name | name in order && DeliveryHere(st, namespace, name).Delivery? :: DeliveryHere(st, namespace, name).item
  }

  ghost function VolumesOf(st: Cluster, namespace: string, order: seq<string>): set<Volume> {
    set name | name in order && DeliveryHere(st, namespace, name).Delivery?
      && DeliveryHere(st, namespace, name).volume.Some?
      :: DeliveryHere(st, namespace, name).volume.value
  }

  /** Every env var and mount of a container that it did not have before is one of the items. */
  ghost predicate ContainersTraced(before: seq<Container>, after: seq<Container>, items: set<Item>) {
    && |before| == |after|
    && (forall i, x :: 0 <= i < |before| && x in after[i].env ==> x in before[i].env || EnvItem(x) in items)
    && (forall i, x :: 0 <= i < |before| && x in after[i].volumeMounts ==>
        x in before[i].volumeMounts || MountItem(x) in items)
  }

  ghost predicate Traced(before: Body, after: Body, items: set<Item>, volumes: set<Volume>) {
    && ContainersTraced(before.containers, after.containers, items)
    && ContainersTraced(before.initContainers, after.initContainers, items)
    && forall v :: v in after.volumes ==> v in before.volumes || v in volumes
  }

  lemma TracedTransitive(a: Body, b: Body, c: Body, items: set<Item>, volumes: set<Volume>, more: set<Item>,
                         others: set<Volume>)
    requires Traced(a, b, items, volumes) && Traced(b, c, more, others)
    ensures Traced(a, c, items + more, volumes + others)
  {
  }

  lemma InjectTraced(b: Body, d: Delivery)
    ensures Traced(b, Inject(b, d), if d.Delivery? then {d.item} else {},
                   if d.Delivery? && d.volume.Some? then {d.volume.value} else {})
  {
  }

  lemma OneMoreDelivery(st: Cluster, namespace: string, order: seq<string>, name: string)
    ensures var d := DeliveryHere(st, namespace, name);
            && ItemsOf(st, namespace, order + [name])
                 == ItemsOf(st, namespace, order) + (if d.Delivery? then {d.item} else {})
            && VolumesOf(st, namespace, order + [name])
            == VolumesOf(st, namespace, order) + (if d.Delivery? && d.volume.Some? then {d.volume.value} else {})
  {
  }

  lemma BindLast(st: Cluster, namespace: string, b: Body, order: seq<string>)
    requires order != []
    ensures var n := |order| - 1;
            var earlier := Bind(st, namespace, b, order[..n]).body;
            Bind(st, namespace, b, order).body in {earlier, Inject(earlier, DeliveryHere(st, namespace, order[n]))}
  {
  }

  lemma {:induction false} BindTraced(st: Cluster, namespace: string, b: Body, order: seq<string>)
    ensures Traced(b, Bind(st, namespace, b, order).body, ItemsOf(st, namespace, order),
                   VolumesOf(st, namespace, order))
  {
    if order == [] {
    } else {
      var n := |order| - 1;
      var earlier, d := Bind(st, namespace, b, order[..n]), DeliveryHere(st, namespace, order[n]);
      BindTraced(st, namespace, b, order[..n]);
      assert order == order[..n] + [order[n]];
      OneMoreDelivery(st, namespace, order[..n], order[n]);
      InjectTraced(earlier.body, d);
      TracedTransitive(b, earlier.body, Inject(earlier.body, d), ItemsOf(st, namespace, order[..n]),
                       VolumesOf(st, namespace, order[..n]), if d.Delivery? then {d.item} else {},
                       if d.Delivery? && d.volume.Some? then {d.volume.value} else {});
      BindLast(st, namespace, b, order);
    }
  }

  /**
   Whatever happens, an env var, mount or volume present afterwards and not before is the delivery of a
   credential that the binding order holds and that exists and authorizes the namespace; a pod the webhook
   passes over gains nothing.
   */
  lemma EveryAdditionIsADelivery(cfg: Config, st: Cluster, requestNamespace: string, pod: PodValue)
    ensures var q, namespace :=
              Default(cfg, st, requestNamespace, pod).pod, NamespaceOf(requestNamespace, pod.Identity());
            match Injects(cfg, st, requestNamespace, pod)
            case None => q.body == pod.body
            case Some((ds, e)) =>
              var order := CredentialOrder(Decide(e), ds);
              && ds == Merge(Cleaned(RawFor(st, namespace, pod.Identity())))
              && Traced(pod.body, q.body, ItemsOf(st, namespace, order), VolumesOf(st, namespace, order))
  {
    match Injects(cfg, st, requestNamespace, pod) {
      case None =>
      case Some((ds, e)) =>
        BindTraced(st, NamespaceOf(requestNamespace, pod.Identity()), pod.body, CredentialOrder(Decide(e), ds));
    }
  }

  // ---- What the report of injectCredential means ----

  /**
   injectCredential is documented to return true if it changed the pod. It does exactly unless the volume
   is missing while no container lacks the mount: then the pod gains a volume and the report is false.
   */
  lemma ReportIsChangeExactly(b: Body, d: Delivery)
    ensures (Reports(b, d) <==> Inject(b, d) != b) <==>
            !(d.Delivery? && d.volume.Some? && !HasVolume(b.volumes, d.volume.value.name)
              && AllHave(b.containers, d.item) && AllHave(b.initContainers, d.item))
  {
    if d.Delivery? {
      FitAllChanges(b.containers, d.item);
      FitAllChanges(b.initContainers, d.item);
    }
  }

  lemma FitAllChanges(cs: seq<Container>, item: Item)
    ensures FitAll(cs, item) == cs <==> !SomeLack(cs, item)
  {
    if i :| 0 <= i < |cs| && !Has(cs[i], item) {
      var c := cs[i];
      assert FitAll(cs, item)[i] == Append(c, item);
      match item {
        case EnvItem(e) => assert |Append(c, item).env| == |c.env| + 1;
        case MountItem(m) => assert |Append(c, item).volumeMounts| == |c.volumeMounts| + 1;
      }
    }
  }

  /** A container that already mounts the credential's volume, in a pod that lacks the volume. */
  lemma UnreportedVolume() returns (b: Body, name: string, mc: ModelCredential)
    ensures !Reports(b, DeliveryOf(name, mc)) && Inject(b, DeliveryOf(name, mc)) != b
  {
    name := "openai";
    var app := Container("app", [], [VolumeMount("tc-cred-openai", "/keys", true)]);
    b := Body([app], [], []);
    mc := ModelCredential("openai", SecretRef("", "source", "key"), [], None,
                          Some(Injection(InjectProjectedVolume, "", "")), None);
    var d := DeliveryOf(name, mc);
    assert app.volumeMounts[0].name == d.item.mount.name;
    assert !HasVolume(b.volumes, d.volume.value.name);
    assert Inject(b, d).volumes == b.volumes + [d.volume.value];
    assert |Inject(b, d).volumes| == 1 && |b.volumes| == 0;
  }
}
