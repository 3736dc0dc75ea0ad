/**
 What a container, the volumes and the bound list hold after the mutating webhook, exactly. A name that is
 already taken, by the pod or by an earlier credential, is left alone, so a container that has an env var or
 mount of the right name need not carry the credential.
 */
module DeliveryTheorems {
  import opened Wrappers
  import opened Api
  import opened FirstOccurrences
  import opened Sorting
  import opened Strings
  import opened Resolver
  import opened Declarations
  import opened ClusterState
  import opened PodValidation
  import opened PodInjection
  import opened InjectionTheorems

  // ---- One container, all credentials ----

  /** The container holds the item itself, not merely one of its name. */
  predicate Carries(c: Container, item: Item) {
    match item
    case EnvItem(e) => e in c.env
    case MountItem(m) => m in c.volumeMounts
  }

  /** Two items of one kind and one name: a container that has the one does not receive the other. */
  predicate Clash(a: Item, b: Item) {
    match (a, b)
    case (EnvItem(x), EnvItem(y)) => x.name == y.name
    case (MountItem(x), MountItem(y)) => x.name == y.name
    case _ => false
  }

  /** A credential of the list delivers an item of the same kind and name. */
  ghost predicate Taken(st: Cluster, namespace: string, order: seq<string>, item: Item) {
    exists j :: 0 <= j < |order| && DeliveryHere(st, namespace, order[j]).Delivery?
                && Clash(DeliveryHere(st, namespace, order[j]).item, item)
  }

  /** The container after the deliveries of a whole list. */
  function Equipped(st: Cluster, namespace: string, c: Container, order: seq<string>): Container {
    if order == [] then c
    else
      var earlier := Equipped(st, namespace, c, order[..|order| - 1]);
      match DeliveryHere(st, namespace, order[|order| - 1])
      case NoDelivery => earlier
      case Delivery(_, item) => Fit(earlier, item)
  }

  function EquippedAll(st: Cluster, namespace: string, cs: seq<Container>, order: seq<string>): seq<Container> {
    seq(|cs|, i requires 0 <= i < |cs| => Equipped(st, namespace, cs[i], order))
  }

  lemma BindUnlessFailed(st: Cluster, namespace: string, b: Body, order: seq<string>)
    requires order != [] && !Bind(st, namespace, b, order).failed
    ensures var n := |order| - 1;
            var earlier, d := Bind(st, namespace, b, order[..n]), DeliveryHere(st, namespace, order[n]);
            && !earlier.failed
            && Bind(st, namespace, b, order).body == Inject(earlier.body, d)
            && Bind(st, namespace, b, order).bound
                 == earlier.bound + (if Reports(earlier.body, d) then [order[n]] else [])
  {
  }

  /** Binding without a failure equips every container. */
  lemma {:induction false} BindEquips(st: Cluster, namespace: string, b: Body, order: seq<string>)
    requires !Bind(st, namespace, b, order).failed
    ensures var after := Bind(st, namespace, b, order).body;
            && after.containers == EquippedAll(st, namespace, b.containers, order)
            && after.initContainers == EquippedAll(st, namespace, b.initContainers, order)
  {
    if order == [] {
    } else {
      BindUnlessFailed(st, namespace, b, order);
      BindEquips(st, namespace, b, order[..|order| - 1]);
    }
  }

  lemma FitHas(c: Container, item: Item, other: Item)
    ensures Has(Fit(c, item), other) <==> Has(c, other) || Clash(item, other)
  {
    AppendKeeps(c, item, other);
    match item {
      case EnvItem(e) => assert forall i :: 0 <= i < |c.env| ==> (c.env + [e])[i] == c.env[i];
      case MountItem(m) => assert forall i :: 0 <= i < |c.volumeMounts| ==>
        (c.volumeMounts + [m])[i] == c.volumeMounts[i];
    }
    if Clash(item, other) && Has(c, item) {
      assert Has(c, other);
    }
    if Clash(item, other) && !Has(c, item) {
      assert Has(Append(c, item), other);
    }
  }

  lemma FitCarries(c: Container, item: Item, other: Item)
    ensures Carries(Fit(c, item), other) <==> Carries(c, other) || (item == other && !Has(c, item))
  {
  }

  lemma TakenLast(st: Cluster, namespace: string, order: seq<string>, item: Item)
    requires order != []
    ensures var n := |order| - 1;
            var d := DeliveryHere(st, namespace, order[n]);
            Taken(st, namespace, order, item) <==>
            Taken(st, namespace, order[..n], item) || (d.Delivery? && Clash(d.item, item))
  {
    assert forall j :: 0 <= j < |order| - 1 ==> order[..|order| - 1][j] == order[j];
  }

  lemma {:induction false} EquippedHas(st: Cluster, namespace: string, c: Container, order: seq<string>, item: Item)
    ensures Has(Equipped(st, namespace, c, order), item) <==> Has(c, item) || Taken(st, namespace, order, item)
  {
    if order == [] {
    } else {
      var n := |order| - 1;
      var d := DeliveryHere(st, namespace, order[n]);
      EquippedHas(st, namespace, c, order[..n], item);
      TakenLast(st, namespace, order, item);
      if d.Delivery? {
        FitHas(Equipped(st, namespace, c, order[..n]), d.item, item);
      }
    }
  }

  /** Different credentials deliver different items. */
  lemma DeliveriesDiffer(st: Cluster, namespace: string, a: string, b: string)
    requires a != b && DeliveryHere(st, namespace, a).Delivery? && DeliveryHere(st, namespace, b).Delivery?
    ensures DeliveryHere(st, namespace, a).item != DeliveryHere(st, namespace, b).item
    ensures DeliveryHere(st, namespace, a).volume.Some? && DeliveryHere(st, namespace, b).volume.Some? ==>
              DeliveryHere(st, namespace, a).volume.value.name != DeliveryHere(st, namespace, b).volume.value.name
  {
    assert (MANAGED_SECRET_PREFIX + a)[|MANAGED_SECRET_PREFIX|..] == a;
    assert (MANAGED_SECRET_PREFIX + b)[|MANAGED_SECRET_PREFIX|..] == b;
  }

  /** A credential outside the list adds nothing to what a container carries. */
  lemma {:induction false} EquippedWithout(st: Cluster, namespace: string, c: Container, order: seq<string>,
                                           name: string)
    requires name !in order && DeliveryHere(st, namespace, name).Delivery?
    ensures var item := DeliveryHere(st, namespace, name).item;
            Carries(Equipped(st, namespace, c, order), item) <==> Carries(c, item)
  {
    if order == [] {
    } else {
      var n := |order| - 1;
      EquippedWithout(st, namespace, c, order[..n], name);
      EquippedLast(st, namespace, c, order, name);
    }
  }

  /** The last credential of a list adds at most its own item. */
  lemma EquippedLast(st: Cluster, namespace: string, c: Container, order: seq<string>, name: string)
    requires order != [] && order[|order| - 1] != name && DeliveryHere(st, namespace, name).Delivery?
    ensures var item := DeliveryHere(st, namespace, name).item;
            Carries(Equipped(st, namespace, c, order), item) <==>
            Carries(Equipped(st, namespace, c, order[..|order| - 1]), item)
  {
    var last, d := order[|order| - 1], DeliveryHere(st, namespace, order[|order| - 1]);
    if d.Delivery? {
      DeliveriesDiffer(st, namespace, last, name);
      FitCarries(Equipped(st, namespace, c, order[..|order| - 1]), d.item, DeliveryHere(st, namespace, name).item);
    }
  }

  /** The container receives the item: nothing of that name was there, or came from an earlier credential. */
  ghost predicate Receives(st: Cluster, namespace: string, c: Container, order: seq<string>, k: nat)
    requires k < |order|
  {
    var d := DeliveryHere(st, namespace, order[k]);
    d.Delivery? && !Has(c, d.item) && !Taken(st, namespace, order[..k], d.item)
  }

  /** A container ends up with a credential exactly if it had it, or receives it. */
  lemma {:induction false} EquippedCarries(st: Cluster, namespace: string, c: Container, order: seq<string>, k: nat)
    requires k < |order| && NoDuplicates(order) && DeliveryHere(st, namespace, order[k]).Delivery?
    ensures var item := DeliveryHere(st, namespace, order[k]).item;
            Carries(Equipped(st, namespace, c, order), item) <==>
              Carries(c, item) || Receives(st, namespace, c, order, k)
  {
    var n := |order| - 1;
    if k == n {
      EquippedWithout(st, namespace, c, order[..n], order[n]);
      EquippedHas(st, namespace, c, order[..n], DeliveryHere(st, namespace, order[n]).item);
      FitCarries(Equipped(st, namespace, c, order[..n]), DeliveryHere(st, namespace, order[n]).item,
                 DeliveryHere(st, namespace, order[n]).item);
    } else {
      assert order[..n][k] == order[k] && order[..n][..k] == order[..k];
      EquippedCarries(st, namespace, c, order[..n], k);
      EquippedLast(st, namespace, c, order, order[k]);
    }
  }

  ghost predicate CarriedExactly(st: Cluster, namespace: string, before: seq<Container>, after: seq<Container>,
                                 order: seq<string>, k: nat)
    requires k < |order| && DeliveryHere(st, namespace, order[k]).Delivery?
  {
    var item := DeliveryHere(st, namespace, order[k]).item;
    && |before| == |after|
    && forall i :: 0 <= i < |before| ==>
         (Carries(after[i], item) <==> Carries(before[i], item) || Receives(st, namespace, before[i], order, k))
  }

  /**
   Who ends up with a credential: a container that carried its item already, and one that had nothing of
   that kind and name and for which no earlier credential delivers something of that kind and name.
   */
  lemma CarriesExactly(st: Cluster, namespace: string, b: Body, order: seq<string>, k: nat)
    requires !Bind(st, namespace, b, order).failed && NoDuplicates(order)
    requires k < |order| && DeliveryHere(st, namespace, order[k]).Delivery?
    ensures CarriedExactly(st, namespace, b.containers, Bind(st, namespace, b, order).body.containers, order, k)
    ensures CarriedExactly(st, namespace, b.initContainers, Bind(st, namespace, b, order).body.initContainers, order, k)
  {
    BindEquips(st, namespace, b, order);
    forall c: Container
      ensures var item := DeliveryHere(st, namespace, order[k]).item;
              Carries(Equipped(st, namespace, c, order), item) <==>
                Carries(c, item) || Receives(st, namespace, c, order, k)
    {
      EquippedCarries(st, namespace, c, order, k);
    }
  }

  // ---- Served declarations ----

  lemma OrderHasNoDuplicates(f: Verdicts, ds: seq<Declared>)
    ensures NoDuplicates(CredentialOrder(f, ds))
  {
    FirstsDistinct(Itself, Candidates(f, ds));
  }

  /**
   What a nonblank permitted declaration gets, if the credential it calls for may be bound here and nothing
   fails: a place in the binding order, and that credential in exactly the containers that carried it
   already or receive it. In every container the name is settled, by this credential or by another.
   */
  lemma PermittedDeclarationIsServed(st: Cluster, namespace: string, pod: PodValue, e: Resolved, d: Declared)
    returns (k: nat)
    requires var raw := RawFor(st, namespace, pod.Identity());
             && d in raw && NonBlank(d) && Permit(e, d.provider, d.model).allowed && CalledFor(e, raw, d) != ""
             && Bindable(st, namespace, CalledFor(e, raw, d)).Ok?
                  && Bindable(st, namespace, CalledFor(e, raw, d)).value.Some?
             && !BindInto(st, namespace, pod, e, Merge(Cleaned(raw))).failed
    ensures var raw := RawFor(st, namespace, pod.Identity());
            var order, name := CredentialOrder(Decide(e), Merge(Cleaned(raw))), CalledFor(e, raw, d);
            var after := BindInto(st, namespace, pod, e, Merge(Cleaned(raw))).pod.body;
            && k < |order| && order[k] == name
            && Settled(after, DeliveryHere(st, namespace, name))
            && (DeliveryHere(st, namespace, name).Delivery? ==>
                  CarriedExactly(st, namespace, pod.body.containers, after.containers, order, k)
                  && CarriedExactly(st, namespace, pod.body.initContainers, after.initContainers, order, k))
  {
    var raw := RawFor(st, namespace, pod.Identity());
    var f, merged := Decide(e), Merge(Cleaned(raw));
    k := CalledForIsOrdered(st, namespace, pod, e, d);
    BindSettles(st, namespace, pod.body, CredentialOrder(f, merged));
    OrderHasNoDuplicates(f, merged);
    if DeliveryHere(st, namespace, CredentialOrder(f, merged)[k]).Delivery? {
      CarriesExactly(st, namespace, pod.body, CredentialOrder(f, merged), k);
    }
  }

  lemma CalledForIsOrdered(st: Cluster, namespace: string, pod: PodValue, e: Resolved, d: Declared) returns (k: nat)
    requires var raw := RawFor(st, namespace, pod.Identity());
             d in raw && NonBlank(d) && Permit(e, d.provider, d.model).allowed && CalledFor(e, raw, d) != ""
    ensures var raw := RawFor(st, namespace, pod.Identity());
            var order := CredentialOrder(Decide(e), Merge(Cleaned(raw)));
            k < |order| && order[k] == CalledFor(e, raw, d)
  {
    var raw := RawFor(st, namespace, pod.Identity());
    var f, merged := Decide(e), Merge(Cleaned(raw));
    var m := RepresentativeOf(raw, d);
    CandidateIsCalledFor(e, raw, m, d);
    CandidateListed(f, merged, m);
    var candidates := Candidates(f, merged);
    var i :| 0 <= i < |candidates| && candidates[i] == CalledFor(e, raw, d);
    var first := FirstsCover(Itself, candidates, i);
    k :| 0 <= k < |CredentialOrder(f, merged)| && CredentialOrder(f, merged)[k] == candidates[first];
  }

  // ---- The binding order ----

  /** The credential each declaration calls for, "" for none. */
  ghost function Calls(f: Verdicts, ds: seq<Declared>): seq<string> {
    seq(|ds|, i requires 0 <= i < |ds| => CandidateCredential(f, ds[i]))
  }

  predicate NonEmpty(s: string) { s != "" }

  lemma {:induction false} CandidatesAreCalls(f: Verdicts, ds: seq<Declared>)
    ensures Candidates(f, ds) == Filter(NonEmpty, Calls(f, ds))
  {
    if ds == [] {
    } else {
      var n := |ds| - 1;
      CandidatesAreCalls(f, ds[..n]);
      assert Calls(f, ds) == Calls(f, ds[..n]) + [CandidateCredential(f, ds[n])];
      FilterLast(NonEmpty, Calls(f, ds[..n]), CandidateCredential(f, ds[n]));
    }
  }

  /** Credentials are bound in the order in which declarations first call for them. */
  lemma OrderFollowsDeclarations(f: Verdicts, ds: seq<Declared>, i: nat, j: nat) returns (k: nat)
    requires i < j < |CredentialOrder(f, ds)|
    ensures k < |ds| && CandidateCredential(f, ds[k]) == CredentialOrder(f, ds)[i]
    ensures forall l :: 0 <= l < |ds| && CandidateCredential(f, ds[l]) == CredentialOrder(f, ds)[j] ==> k < l
  {
    CandidatesAreCalls(f, ds);
    FilterIndices(NonEmpty, Calls(f, ds));
    var places := KeptAt(NonEmpty, Calls(f, ds));
    var firsts := FirstsOrigin(Itself, Candidates(f, ds));
    k := places[firsts[i]];
    var late := CredentialOrder(f, ds)[j];
    assert late != "" by {
      assert late in Candidates(f, ds);
      var d := CandidateOrigin(f, ds, late);
    }
    forall l | 0 <= l < |ds| && CandidateCredential(f, ds[l]) == late ensures k < l {
      KeptAtExactly(NonEmpty, Calls(f, ds), l);
      var x :| 0 <= x < |places| && places[x] == l;
      assert Candidates(f, ds)[x] == late == Candidates(f, ds)[firsts[j]];
      assert firsts[i] < firsts[j] <= x;
    }
  }

  // ---- The bound list ----

  ghost predicate SomeReceives(st: Cluster, namespace: string, cs: seq<Container>, order: seq<string>, k: nat)
    requires k < |order|
  {
    exists i :: 0 <= i < |cs| && Receives(st, namespace, cs[i], order, k)
  }

  lemma ReportsExactly(st: Cluster, namespace: string, b: Body, order: seq<string>, k: nat)
    requires k < |order| && !Bind(st, namespace, b, order[..k]).failed
    ensures Reports(Bind(st, namespace, b, order[..k]).body, DeliveryHere(st, namespace, order[k])) <==>
            SomeReceives(st, namespace, b.containers, order, k)
              || SomeReceives(st, namespace, b.initContainers, order, k)
  {
    var d := DeliveryHere(st, namespace, order[k]);
    BindEquips(st, namespace, b, order[..k]);
    if d.Delivery? {
      LackingReceives(st, namespace, b.containers, order, k);
      LackingReceives(st, namespace, b.initContainers, order, k);
    }
  }

  lemma LackingReceives(st: Cluster, namespace: string, cs: seq<Container>, order: seq<string>, k: nat)
    requires k < |order| && DeliveryHere(st, namespace, order[k]).Delivery?
    ensures SomeLack(EquippedAll(st, namespace, cs, order[..k]), DeliveryHere(st, namespace, order[k]).item) <==>
            SomeReceives(st, namespace, cs, order, k)
  {
    forall i | 0 <= i < |cs|
      ensures Has(EquippedAll(st, namespace, cs, order[..k])[i], DeliveryHere(st, namespace, order[k]).item) <==>
              !Receives(st, namespace, cs[i], order, k)
    {
      EquippedHas(st, namespace, cs[i], order[..k], DeliveryHere(st, namespace, order[k]).item);
    }
  }

  /** A credential is reported as bound exactly if some container receives it. */
  lemma {:induction false} ReportedExactly(st: Cluster, namespace: string, b: Body, order: seq<string>, k: nat)
    requires !Bind(st, namespace, b, order).failed && NoDuplicates(order) && k < |order|
    ensures order[k] in Bind(st, namespace, b, order).bound <==>
            SomeReceives(st, namespace, b.containers, order, k)
              || SomeReceives(st, namespace, b.initContainers, order, k)
  {
    var n := |order| - 1;
    BindUnlessFailed(st, namespace, b, order);
    if k == n {
      ReportsExactly(st, namespace, b, order, k);
      if order[n] in Bind(st, namespace, b, order[..n]).bound {
        BoundOrigin(st, namespace, b, order[..n], order[n]);
      }
    } else {
      assert order[..n][k] == order[k] && order[..n][..k] == order[..k];
      ReportedExactly(st, namespace, b, order[..n], k);
      assert forall i :: 0 <= i < |b.containers| ==>
        Receives(st, namespace, b.containers[i], order, k) == Receives(st, namespace, b.containers[i], order[..n], k);
      assert forall i :: 0 <= i < |b.initContainers| ==>
        Receives(st, namespace, b.initContainers[i], order, k)
          == Receives(st, namespace, b.initContainers[i], order[..n], k);
    }
  }

  ghost predicate SomeCarries(b: Body, item: Item) {
    (exists i :: 0 <= i < |b.containers| && Carries(b.containers[i], item))
    || (exists i :: 0 <= i < |b.initContainers| && Carries(b.initContainers[i], item))
  }

  /** So a bound credential is carried by some container. */
  lemma BoundIsCarried(st: Cluster, namespace: string, b: Body, order: seq<string>, k: nat)
    requires !Bind(st, namespace, b, order).failed && NoDuplicates(order) && k < |order|
    requires order[k] in Bind(st, namespace, b, order).bound
    ensures DeliveryHere(st, namespace, order[k]).Delivery?
    ensures SomeCarries(Bind(st, namespace, b, order).body, DeliveryHere(st, namespace, order[k]).item)
  {
    ReportedExactly(st, namespace, b, order, k);
    CarriesExactly(st, namespace, b, order, k);
  }

  // ---- Volumes ----

  /** A credential's volume is there afterwards exactly if it was before, or its name was free. */
  lemma {:induction false} VolumeExactly(st: Cluster, namespace: string, b: Body, order: seq<string>, k: nat, v: Volume)
    requires !Bind(st, namespace, b, order).failed && NoDuplicates(order) && k < |order|
    requires DeliveryHere(st, namespace, order[k]).Delivery?
             && DeliveryHere(st, namespace, order[k]).volume.Some?
             && DeliveryHere(st, namespace, order[k]).volume.value.name == v.name
    ensures v in Bind(st, namespace, b, order).body.volumes <==>
            v in b.volumes || (!HasVolume(b.volumes, v.name) && v == DeliveryHere(st, namespace, order[k]).volume.value)
  {
    var n := |order| - 1;
    BindUnlessFailed(st, namespace, b, order);
    if k == n {
      VolumesWithout(st, namespace, b, order[..n], order[n], v);
    } else {
      VolumeExactly(st, namespace, b, order[..n], k, v);
      OtherVolumes(st, namespace, Bind(st, namespace, b, order[..n]).body, order[n], order[k], v);
    }
  }

  lemma OtherVolumes(st: Cluster, namespace: string, b: Body, last: string, name: string, v: Volume)
    requires last != name && DeliveryHere(st, namespace, name).Delivery?
             && DeliveryHere(st, namespace, name).volume.Some?
             && DeliveryHere(st, namespace, name).volume.value.name == v.name
    ensures v in Inject(b, DeliveryHere(st, namespace, last)).volumes <==> v in b.volumes
    ensures HasVolume(Inject(b, DeliveryHere(st, namespace, last)).volumes, v.name) <==> HasVolume(b.volumes, v.name)
  {
    var d := DeliveryHere(st, namespace, last);
    if d.Delivery? && d.volume.Some? {
      DeliveriesDiffer(st, namespace, last, name);
      var after := WithVolume(b.volumes, d.volume);
      assert forall i :: 0 <= i < |b.volumes| ==> after[i] == b.volumes[i];
    }
  }

  lemma {:induction false} VolumesWithout(st: Cluster, namespace: string, b: Body, order: seq<string>, name: string,
                                          v: Volume)
    requires !Bind(st, namespace, b, order).failed && name !in order
    requires DeliveryHere(st, namespace, name).Delivery? && DeliveryHere(st, namespace, name).volume.Some?
             && DeliveryHere(st, namespace, name).volume.value.name == v.name
    ensures var after := Bind(st, namespace, b, order).body.volumes;
            (v in after <==> v in b.volumes) && (HasVolume(after, v.name) <==> HasVolume(b.volumes, v.name))
  {
    if order == [] {
    } else {
      var n := |order| - 1;
      BindUnlessFailed(st, namespace, b, order);
      VolumesWithout(st, namespace, b, order[..n], name, v);
      OtherVolumes(st, namespace, Bind(st, namespace, b, order[..n]).body, order[n], name, v);
    }
  }

  // ---- A second run on a pod somebody changed in between ----

  /** What the annotation lists: the names a run binds anew replace those an earlier run listed. */
  function Listed(first: seq<string>, second: seq<string>): seq<string> { if second != [] then second else first }

  /**
   The webhook runs, the containers and volumes change, it runs again over the same cluster state. The
   annotation then lists what the second run bound, or what the first did if the second bound nothing; so it
   keeps every name of the first exactly if the second binds nothing or binds all of them again.
   */
  lemma ReinvocationLists(cfg: Config, st: Cluster, requestNamespace: string, pod: PodValue, body: Body,
                          ds: seq<Declared>, e: Resolved)
    requires Injects(cfg, st, requestNamespace, pod) == Some((ds, e)) && !Default(cfg, st, requestNamespace, pod).failed
    requires !Default(cfg, st, requestNamespace, Default(cfg, st, requestNamespace, pod).pod.(body := body)).failed
    ensures var namespace, order := NamespaceOf(requestNamespace, pod.Identity()), CredentialOrder(Decide(e), ds);
            var first, second := Bind(st, namespace, pod.body, order).bound, Bind(st, namespace, body, order).bound;
            var again :=
              Default(cfg, st, requestNamespace, Default(cfg, st, requestNamespace, pod).pod.(body := body)).pod;
            && again.Annotation(ANNOTATION_CREDENTIALS_BOUND)
               == (if Listed(first, second) == [] then pod.Annotation(ANNOTATION_CREDENTIALS_BOUND)
                   else Join(Listed(first, second), ','))
            && ((forall x :: x in first ==> x in Listed(first, second)) <==>
                second == [] || forall k :: 0 <= k < |order| && order[k] in first ==>
                  SomeReceives(st, namespace, body.containers, order, k)
                  || SomeReceives(st, namespace, body.initContainers, order, k))
  {
    var namespace, order := NamespaceOf(requestNamespace, pod.Identity()), CredentialOrder(Decide(e), ds);
    var once := Default(cfg, st, requestNamespace, pod).pod;
    DefaultKeepsInputs(cfg, st, requestNamespace, pod);
    assert Injects(cfg, st, requestNamespace, once.(body := body)) == Some((ds, e));
    AnnotationAfter(pod.annotations, Bind(st, namespace, pod.body, order).bound, e.sources);
    AnnotationAfter(once.annotations, Bind(st, namespace, body, order).bound, e.sources);
    KeptExactly(st, namespace, pod.body, body, order, Decide(e), ds);
  }

  lemma AnnotationAfter(annotations: map<string, string>, bound: seq<string>, sources: seq<string>)
    ensures var a := Annotate(annotations, bound, sources);
            if bound != [] then ANNOTATION_CREDENTIALS_BOUND in a && a[ANNOTATION_CREDENTIALS_BOUND] == Join(bound, ',')
            else (ANNOTATION_CREDENTIALS_BOUND in a <==> ANNOTATION_CREDENTIALS_BOUND in annotations)
                 && (ANNOTATION_CREDENTIALS_BOUND in a ==>
                       a[ANNOTATION_CREDENTIALS_BOUND] == annotations[ANNOTATION_CREDENTIALS_BOUND])
  {
    assert |ANNOTATION_EFFECTIVE_POLICY| == 43 && |ANNOTATION_CREDENTIALS_BOUND| == 44;
  }

  lemma KeptExactly(st: Cluster, namespace: string, b: Body, body: Body, order: seq<string>, f: Verdicts,
                    ds: seq<Declared>)
    requires order == CredentialOrder(f, ds)
    requires !Bind(st, namespace, b, order).failed && !Bind(st, namespace, body, order).failed
    ensures var first, second := Bind(st, namespace, b, order).bound, Bind(st, namespace, body, order).bound;
            (forall x :: x in first ==> x in Listed(first, second)) <==>
            second == [] || forall k :: 0 <= k < |order| && order[k] in first ==>
              SomeReceives(st, namespace, body.containers, order, k)
              || SomeReceives(st, namespace, body.initContainers, order, k)
  {
    var first, second := Bind(st, namespace, b, order).bound, Bind(st, namespace, body, order).bound;
    OrderHasNoDuplicates(f, ds);
    forall k | 0 <= k < |order|
      ensures order[k] in second <==> SomeReceives(st, namespace, body.containers, order, k)
                                      || SomeReceives(st, namespace, body.initContainers, order, k)
    {
      ReportedExactly(st, namespace, body, order, k);
    }
    forall x | x in first ensures exists k :: 0 <= k < |order| && order[k] == x {
      BoundOrigin(st, namespace, b, order, x);
    }
  }

  // ---- Pods on which names are taken ----

  function EnvCredential(envName: string): ModelCredential {
    ModelCredential("openai", SecretRef("", "source", "key"), ["dev"], None, Some(Injection(InjectEnv, envName, "")),
                    None)
  }

  function EnvDelivery(name: string, envName: string): Delivery {
    Delivery(None, EnvItem(EnvVar(envName, SecretKeyRef(MANAGED_SECRET_PREFIX + name, "key"))))
  }

  function TwoCredentials(envA: string, envB: string): Cluster {
    Cluster([], [], [], map["a" := EnvCredential(envA), "b" := EnvCredential(envB)], map[], {})
  }

  lemma BindPair(b: Body, envA: string, envB: string)
    requires envA != "" && envB != ""
    ensures var st, dA, dB := TwoCredentials(envA, envB), EnvDelivery("a", envA), EnvDelivery("b", envB);
            && DeliveryHere(st, "dev", "a") == dA && DeliveryHere(st, "dev", "b") == dB
            && Bind(st, "dev", b, ["a", "b"])
               == Binding(Inject(Inject(b, dA), dB),
                          (if Reports(b, dA) then ["a"] else [])
                          + (if Reports(Inject(b, dA), dB) then ["b"] else []),
                          false)
  {
    var st, order := TwoCredentials(envA, envB), ["a", "b"];
    assert "dev" in EnvCredential(envA).allowedNamespaces && "dev" in EnvCredential(envB).allowedNamespaces;
    assert order[..1] == ["a"] && order[..1][..0] == [];
    assert Bind(st, "dev", b, order[..1])
        == Binding(Inject(b, EnvDelivery("a", envA)), if Reports(b, EnvDelivery("a", envA)) then ["a"] else [], false);
  }

  lemma OneContainer(c: Container, d: Delivery)
    requires d.Delivery? && d.volume == None
    ensures Inject(Body([c], [], []), d) == Body([Fit(c, d.item)], [], [])
    ensures Reports(Body([c], [], []), d) <==> !Has(c, d.item)
  {
    assert [c][0] == c;
  }

  /**
   Two credentials with one env name: both may be bound, the name is settled for the second, and no container
   carries it. The bound list does not mention it.
   */
  lemma SharedNameIsNotServed() returns (st: Cluster, b: Body, order: seq<string>)
    ensures order == ["a", "b"] && |b.containers| == 1 && DeliveryHere(st, "dev", "b").Delivery?
    ensures var r, d := Bind(st, "dev", b, order), DeliveryHere(st, "dev", "b");
            !r.failed && r.bound == ["a"] && Settled(r.body, d) && !SomeCarries(r.body, d.item)
  {
    var c := Container("app", [], []);
    st, b, order := TwoCredentials("KEY", "KEY"), Body([c], [], []), ["a", "b"];
    var dA, dB := EnvDelivery("a", "KEY"), EnvDelivery("b", "KEY");
    BindPair(b, "KEY", "KEY");
    OneContainer(c, dA);
    var after := Fit(c, dA.item);
    assert after.env == [dA.item.env] && after.env[0].name == "KEY";
    OneContainer(after, dB);
    assert dA.item.env.source.secretName[8] == 'a' && dB.item.env.source.secretName[8] == 'b';
  }

  lemma BothBound(c: Container) returns (after: Container)
    requires c.env == []
    ensures Bind(TwoCredentials("A", "B"), "dev", Body([c], [], []), ["a", "b"])
         == Binding(Body([after], [], []), ["a", "b"], false)
    ensures after.env == [EnvDelivery("a", "A").item.env, EnvDelivery("b", "B").item.env]
  {
    var dA, dB := EnvDelivery("a", "A"), EnvDelivery("b", "B");
    BindPair(Body([c], [], []), "A", "B");
    OneContainer(c, dA);
    var withA := Fit(c, dA.item);
    assert withA.env == [dA.item.env];
    OneContainer(withA, dB);
    after := Fit(withA, dB.item);
  }

  lemma OnlySecondBound(app: Container, sidecar: Container)
    requires Has(app, EnvDelivery("a", "A").item) && Has(app, EnvDelivery("b", "B").item)
    requires Has(sidecar, EnvDelivery("a", "A").item) && !Has(sidecar, EnvDelivery("b", "B").item)
    ensures var r := Bind(TwoCredentials("A", "B"), "dev", Body([app, sidecar], [], []), ["a", "b"]);
            !r.failed && r.bound == ["b"]
  {
    var body, dA, dB := Body([app, sidecar], [], []), EnvDelivery("a", "A"), EnvDelivery("b", "B");
    BindPair(body, "A", "B");
    assert Inject(body, dA) == body && !Reports(body, dA);
    assert !Has(body.containers[1], dB.item);
  }

  /**
   A pod with both credentials bound gains a sidecar that already has the first one's env var: the second run
   binds the second credential there and the annotation forgets the first, which the app still carries.
   */
  lemma ReinvocationForgets() returns (st: Cluster, b: Body, body: Body, order: seq<string>)
    ensures order == ["a", "b"] && !Bind(st, "dev", b, order).failed && !Bind(st, "dev", body, order).failed
    ensures var first, second := Bind(st, "dev", b, order), Bind(st, "dev", body, order);
            && |body.containers| == 2 && first.body.containers == [body.containers[0]]
            && first.bound == ["a", "b"] && second.bound == ["b"]
            && DeliveryHere(st, "dev", "a").Delivery? && Carries(body.containers[0], DeliveryHere(st, "dev", "a").item)
  {
    var app, sidecar := Container("app", [], []), Container("sidecar", [EnvVar("A", LiteralValue("x"))], []);
    st, b, order := TwoCredentials("A", "B"), Body([app], [], []), ["a", "b"];
    var after := BothBound(app);
    assert after.env[0].name == "A" && after.env[1].name == "B" && sidecar.env[0].name == "A";
    body := Body([after, sidecar], [], []);
    OnlySecondBound(after, sidecar);
    BindPair(body, "A", "B");
  }
}
