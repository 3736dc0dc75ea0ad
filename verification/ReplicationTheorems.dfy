/** What one reconcile of a credential does, over the fields of the credential, the Secrets and the policies. */
module ReplicationTheorems {
  import opened Wrappers
  import opened Sorting
  import opened Api
  import opened SelectionTheorems
  import opened Capacity
  import opened Replication

  // ---- The source ----

  /** The Secret the credential names, in the namespace it names or else the operator's. */
  ghost function NamedSource(c: Subject): SecretId {
    var ref := c.spec.secretRef;
    SecretId(if ref.namespace == "" then c.operatorNamespace else ref.namespace, ref.name)
  }

  ghost predicate SourceHolds(c: Subject, store: Store, value: Bytes) {
    exists s :: (NamedSource(c), s) in store.Items && (c.spec.secretRef.key, value) in s.data.Items
  }

  lemma ReadSourceExactly(c: Subject, store: Store, value: Bytes)
    ensures ReadSource(c, store) == Some(value) <==> SourceHolds(c, store, value)
  {
    assert c.SourceId() == NamedSource(c);
    if NamedSource(c) in store {
      assert (NamedSource(c), store[NamedSource(c)]) in store.Items;
      var data := store[NamedSource(c)].data;
      if c.spec.secretRef.key in data {
        assert (c.spec.secretRef.key, data[c.spec.secretRef.key]) in data.Items;
      }
    }
  }

  // ---- The authorized namespaces ----

  ghost predicate AuthorizedByFields(spec: ModelCredential, namespaces: map<string, Labels>, n: string) {
    || n in spec.allowedNamespaces
    || (spec.namespaceSelector.Some? && exists l :: (n, l) in namespaces.Items && Met(spec.namespaceSelector.value, l))
  }

  /** The selector is only looked at when there is a namespace to test it on. */
  ghost predicate Decidable(spec: ModelCredential, namespaces: map<string, Labels>) {
    namespaces != map[] ==> ParsesIfAny(spec.namespaceSelector)
  }

  lemma AuthorizedExactly(spec: ModelCredential, namespaces: map<string, Labels>)
    ensures Authorized(spec, namespaces).Ok? <==> Decidable(spec, namespaces)
    ensures Authorized(spec, namespaces).Ok? ==>
              forall n :: n in Authorized(spec, namespaces).value <==> AuthorizedByFields(spec, namespaces, n)
  {
    if spec.namespaceSelector.Some? {
      var sel := spec.namespaceSelector.value;
      SelectorExactly(Some(sel), map[]);
      forall l: Labels | Parses(sel) ensures LabelsMatch(sel, l) <==> Met(sel, l) {
        SelectorExactly(Some(sel), l);
      }
      forall n ensures (exists l :: (n, l) in namespaces.Items && Met(spec.namespaceSelector.value, l)) <==>
        n in namespaces && Met(spec.namespaceSelector.value, namespaces[n]) {
        if n in namespaces {
          assert (n, namespaces[n]) in namespaces.Items;
        }
      }
    }
  }

  // ---- One pass ----

  ghost predicate LabelledFor(s: Secret,
                              name: string) { ("governance.tokencontrol.io/credential", name) in s.labels.Items }

  lemma LabelledExactly(s: Secret, name: string)
    ensures Labelled(s, name) <==> LabelledFor(s, name)
  {
    if LABEL_CREDENTIAL in s.labels {
      assert (LABEL_CREDENTIAL, s.labels[LABEL_CREDENTIAL]) in s.labels.Items;
    }
  }

  ghost predicate MayTake(store: Store, id: SecretId, name: string) {
    forall s :: (id, s) in store.Items ==> s.controller == None || s.controller == Some(CredentialOwner(name))
  }

  lemma MayTakeExactly(store: Store, id: SecretId, name: string)
    ensures MayTake(store, id, name) <==> CanOwn(Lookup(store, id), name)
  {
    if id in store {
      assert (id, store[id]) in store.Items;
    }
  }

  /** The Secret is the replica of the value: one key, this source, and the controller's own marks. */
  ghost predicate Replica(c: Subject, s: Secret, value: Bytes) {
    && s.data == map[c.spec.secretRef.key := value] && s.kind == "Opaque"
    && ("governance.tokencontrol.io/source",
        NamedSource(c).namespace + "/" + NamedSource(c).name) in s.annotations.Items
    && ("app.kubernetes.io/managed-by", "token-control") in s.labels.Items
    && LabelledFor(s, c.name) && s.controller == Some(CredentialOwner(c.name))
  }

  lemma ReplicaExactly(c: Subject, s: Secret, value: Bytes)
    ensures IsCopy(c, s, value) <==> Replica(c, s, value)
  {
    LabelledExactly(s, c.name);
    assert c.SourceNamespace() + "/" + c.spec.secretRef.name == NamedSource(c).namespace + "/" + NamedSource(c).name;
    if ANNOTATION_SOURCE in s.annotations {
      assert (ANNOTATION_SOURCE, s.annotations[ANNOTATION_SOURCE]) in s.annotations.Items;
    }
    if LABEL_MANAGED_BY in s.labels {
      assert (LABEL_MANAGED_BY, s.labels[LABEL_MANAGED_BY]) in s.labels.Items;
    }
  }

  ghost function ReplicaId(c: Subject, n: string): SecretId { SecretId(n, "tc-cred-" + c.name) }

  /** The pass comes to decide about Secrets: the source is read and the namespaces are known. */
  ghost predicate Decides(c: Subject, w: Surroundings, pre: Store, value: Bytes) {
    && w.net(GetSource) == Done && SourceHolds(c, pre, value)
    && (c.spec.namespaceSelector.Some? ==> w.net(ListNamespaces) == Done) && Decidable(c.spec, w.namespaces)
  }

  lemma DecidesExactly(c: Subject, w: Surroundings, pre: Store, value: Bytes)
    ensures Decides(c, w, pre, value) <==> Target(c, w, pre).Some? && Target(c, w, pre).value.0 == value
    ensures Target(c, w, pre).Some? ==>
              forall n :: n in Target(c, w, pre).value.1 <==> AuthorizedByFields(c.spec, w.namespaces, n)
  {
    ReadSourceExactly(c, pre, value);
    AuthorizedExactly(c.spec, w.namespaces);
    if ReadSource(c, pre).Some? {
      ReadSourceExactly(c, pre, ReadSource(c, pre).value);
    }
  }

  /** Once the source can be asked for, a pass is unresolved exactly if the named Secret or its key is missing. */
  lemma UnresolvedExactly(c: Subject, w: Surroundings, pre: Store, post: Store, r: PassResult)
    requires Pass(c, w, pre, post, r) && w.net(GetSource) == Done
    ensures r.Unresolved? <==> forall value :: !SourceHolds(c, pre, value)
    ensures r.Unresolved? ==> post == pre
  {
    if ReadSource(c, pre).Some? {
      ReadSourceExactly(c, pre, ReadSource(c, pre).value);
    } else {
      forall value ensures !SourceHolds(c, pre, value) {
        ReadSourceExactly(c, pre, value);
      }
    }
  }

  /**
   A pass in which no call fails, with the source there: every authorized namespace ends up with the replica
   of the source's value, or keeps the Secret of another controller as it was; no Secret elsewhere bears the
   credential's label; every other Secret is as before.
   */
  lemma ReplicatedExactly(c: Subject, w: Surroundings, pre: Store, post: Store, r: PassResult, value: Bytes, n: string)
    requires Pass(c, w, pre, post, r) && NoFailures(w.net) && Decides(c, w, pre, value)
    ensures AuthorizedByFields(c.spec, w.namespaces, n) ==>
              if MayTake(pre, ReplicaId(c, n), c.name)
              then ReplicaId(c, n) in post && Replica(c, post[ReplicaId(c, n)], value)
              else Lookup(post, ReplicaId(c, n)) == Lookup(pre, ReplicaId(c, n))
    ensures forall id :: id in post && LabelledFor(post[id], c.name) ==>
            AuthorizedByFields(c.spec, w.namespaces, id.namespace)
    ensures forall id: SecretId :: id.name != "tc-cred-" + c.name && (id in pre ==> !LabelledFor(pre[id], c.name)) ==>
              Lookup(post, id) == Lookup(pre, id)
    ensures r.Reconciled?
  {
    DecidesExactly(c, w, pre, value);
    var authorized := Target(c, w, pre).value.1;
    if n in authorized {
      ReplicaIn(c, w, pre, post, r, value, authorized, n);
    }
    forall id | id in post
      && LabelledFor(post[id], c.name) ensures AuthorizedByFields(c.spec, w.namespaces, id.namespace) {
      LabelledExactly(post[id], c.name);
      PassAt(c, w, pre, post, r, value, authorized, id);
    }
    forall id: SecretId | id.name != "tc-cred-" + c.name && (id in pre ==> !LabelledFor(pre[id], c.name))
      ensures Lookup(post, id) == Lookup(pre, id)
    {
      if id in pre {
        LabelledExactly(pre[id], c.name);
      }
      PassLeavesOthersAlone(c, w, pre, post, r, id);
    }
  }

  lemma ReplicaIn(c: Subject, w: Surroundings, pre: Store, post: Store, r: PassResult, value: Bytes,
                  authorized: set<string>, n: string)
    requires Pass(c, w, pre, post, r) && NoFailures(w.net) && Target(c, w, pre) == Some((value, authorized))
             && n in authorized
    ensures if MayTake(pre, ReplicaId(c, n), c.name)
            then ReplicaId(c, n) in post && Replica(c, post[ReplicaId(c, n)], value)
            else Lookup(post, ReplicaId(c, n)) == Lookup(pre, ReplicaId(c, n))
  {
    assert ReplicaId(c, n) == c.CopyId(n);
    MayTakeExactly(pre, c.CopyId(n), c.name);
    GoodCopyExactly(c, w, pre, post, r, value, authorized, n);
    if CanOwn(Lookup(pre, c.CopyId(n)), c.name) {
      ReplicaExactly(c, post[c.CopyId(n)], value);
    } else {
      PassAtAuthorized(c, w, pre, post, r, value, authorized, c.CopyId(n));
      WrittenAt(w.net, pre, c, value, authorized, c.CopyId(n));
    }
  }

  /** The namespaces reported as synced: authorized, not another controller's, and their write confirmed. */
  lemma SyncedByFields(c: Subject, w: Surroundings, pre: Store, post: Store, r: PassResult, n: string)
    requires Pass(c, w, pre, post, r) && r.Reconciled?
    ensures Ascending(r.status.syncedNamespaces)
    ensures n in r.status.syncedNamespaces <==>
            && AuthorizedByFields(c.spec, w.namespaces, n) && MayTake(pre, ReplicaId(c, n), c.name)
            && w.net(WriteSecret(n)) == Done
  {
    if Target(c, w, pre).Some? {
      DecidesExactly(c, w, pre, Target(c, w, pre).value.0);
    }
    MayTakeExactly(pre, c.CopyId(n), c.name);
    assert ReplicaId(c, n) == c.CopyId(n);
  }

  // ---- The policies that bind a credential ----

  ghost predicate NamedByRule(models: seq<ModelPermission>, name: string) {
    exists m :: m in models && m.credentialRef == Some(name)
  }

  ghost predicate BoundByCluster(p: ClusterTokenPolicy, name: string) {
    p.defaultCredentialRef == Some(name) || NamedByRule(p.models, name)
  }

  lemma NamedByRuleExactly(models: seq<ModelPermission>, name: string)
    ensures ModelsReference(models, name) <==> NamedByRule(models, name)
  {
    if m :| m in models && m.credentialRef == Some(name) {
      var i :| 0 <= i < |models| && models[i] == m;
      assert models[i].credentialRef == Some(name);
    }
  }

  /** The references are the policies with a rule, or default, that names the credential, each with its quota. */
  lemma ReferencesExactly(cps: seq<ClusterTokenPolicy>, tps: seq<TokenPolicy>, name: string, r: Reference)
    ensures r in References(cps, tps, name) <==>
            || (exists p ::
                p in cps && BoundByCluster(p, name) && r == Reference("ClusterTokenPolicy/" + p.name, p.quota))
            || (exists p :: p in tps && NamedByRule(p.models, name)
                            && r == Reference("TokenPolicy/" + p.namespace + "/" + p.name, p.quota))
  {
    var cs, ts := Filter(ClusterBinds(name), cps), Filter(PolicyBinds(name), tps);
    forall p: ClusterTokenPolicy ensures p in cs <==> p in cps && BoundByCluster(p, name) {
      FilterMember(ClusterBinds(name), cps, p);
      NamedByRuleExactly(p.models, name);
    }
    forall p: TokenPolicy ensures p in ts <==> p in tps && NamedByRule(p.models, name) {
      FilterMember(PolicyBinds(name), tps, p);
      NamedByRuleExactly(p.models, name);
    }
    AsReferencesMember(ClusterReference, cs, r);
    AsReferencesMember(PolicyReference, ts, r);
  }

  lemma AsReferencesMember<T>(f: T -> Reference, s: seq<T>, r: Reference)
    ensures r in AsReferences(f, s) <==> exists x :: x in s && r == f(x)
  {
    if x :| x in s && r == f(x) {
      var i :| 0 <= i < |s| && s[i] == x;
      assert AsReferences(f, s)[i] == r;
    }
  }

  ghost predicate BoundUnder(cps: seq<ClusterTokenPolicy>, tps: seq<TokenPolicy>, name: string, k: string) {
    || (exists p :: p in cps && BoundByCluster(p, name) && k == "ClusterTokenPolicy/" + p.name)
    || (exists p :: p in tps && NamedByRule(p.models, name) && k == "TokenPolicy/" + p.namespace + "/" + p.name)
  }

  lemma KeysExactly(cps: seq<ClusterTokenPolicy>, tps: seq<TokenPolicy>, name: string, k: string)
    ensures (exists ref :: ref in References(cps, tps, name) && ref.key == k) <==> BoundUnder(cps, tps, name, k)
  {
    if ref :| ref in References(cps, tps, name) && ref.key == k {
      ReferencesExactly(cps, tps, name, ref);
    }
    if p :| p in cps && BoundByCluster(p, name) && k == "ClusterTokenPolicy/" + p.name {
      ReferencesExactly(cps, tps, name, Reference(k, p.quota));
    }
    if p :| p in tps && NamedByRule(p.models, name) && k == "TokenPolicy/" + p.namespace + "/" + p.name {
      ReferencesExactly(cps, tps, name, Reference(k, p.quota));
    }
  }

  /** The reported policies are exactly these, in ascending order. */
  lemma ReportedPolicies(c: Subject, w: Surroundings, pre: Store, post: Store, r: PassResult, k: string)
    requires Pass(c, w, pre, post, r) && r.Reconciled?
    ensures Ascending(r.status.referencingPolicies)
    ensures k in r.status.referencingPolicies <==> BoundUnder(w.clusterPolicies, w.tokenPolicies, c.name, k)
  {
    assert RollupTells(c, w, r.status);
    KeysExactly(w.clusterPolicies, w.tokenPolicies, c.name, k);
  }
}
