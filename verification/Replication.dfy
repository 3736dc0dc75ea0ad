/**
 Credential replication over a Secret store. Every API call has an outcome of its own: it succeeds, it is
 refused, or it takes effect although the caller sees an error.
 */
module Replication {
  import opened Wrappers
  import opened Sorting
  import opened Api
  import opened Capacity

  // ---- Secrets ----

  type Bytes = seq<bv8>

  datatype Owner = CredentialOwner(name: string) | ForeignOwner(id: string)

  datatype Secret = Secret(
    labels: Labels, annotations: map<string, string>, kind: string, data: map<string, Bytes>, controller: Option<Owner>)

  datatype SecretId = SecretId(namespace: string, name: string)

  type Store = map<SecretId, Secret>

  const LABEL_MANAGED_BY := "app.kubernetes.io/managed-by"
  const LABEL_CREDENTIAL := "governance.tokencontrol.io/credential"
  const MANAGED_BY_VALUE := "token-control"
  const ANNOTATION_SOURCE := "governance.tokencontrol.io/source"

  // ---- API calls ----

  datatype ApiCall =
    | GetSource | ListNamespaces | WriteSecret(namespace: string)
    | ListSecrets | DeleteSecret(id: SecretId) | ListClusterPolicies | ListTokenPolicies

  /** Lost: the call took effect, the caller got an error. */
  datatype CallOutcome = Done | Lost | Refused

  type Network = ApiCall -> CallOutcome

  ghost predicate NoFailures(net: Network) { forall call :: net(call) == Done }

  // ---- What one pass reads ----

  /** The credential object as the pass read it. */
  datatype Subject = Subject(name: string, spec: ModelCredential, operatorNamespace: string)
  {
    function SourceNamespace(): string {
      if spec.secretRef.namespace == "" then operatorNamespace else spec.secretRef.namespace
    }

    function SourceId(): SecretId { SecretId(SourceNamespace(), spec.secretRef.name) }

    function CopyId(namespace: string): SecretId { SecretId(namespace, MANAGED_SECRET_PREFIX + name) }
  }

  function ReadSource(c: Subject, store: Store): Option<Bytes> {
    if c.SourceId() in store && c.spec.secretRef.key in store[c.SourceId()].data
    then Some(store[c.SourceId()].data[c.spec.secretRef.key]) else None
  }

  /** A malformed selector is only noticed when there is a namespace to test. */
  function Authorized(spec: ModelCredential, namespaces: map<string, Labels>): Result<set<string>, SelectorError> {
    var explicit := set n | n in spec.allowedNamespaces;
    match spec.namespaceSelector
    case None => Ok(explicit)
    case Some(sel) =>
      if namespaces != map[] && !WellFormedSelector(sel) then Err(SelectorError)
      else Ok(explicit + set n | n in namespaces && LabelsMatch(sel, namespaces[n]))
  }

  // ---- What one write does ----

  function Lookup(store: Store, id: SecretId): Option<Secret> { if id in store then Some(store[id]) else None }

  /** SetControllerReference refuses an object another controller owns. */
  predicate CanOwn(existing: Option<Secret>, name: string) {
    existing.None? || existing.value.controller in {None, Some(CredentialOwner(name))}
  }

  /** The copy CreateOrUpdate leaves: foreign labels and annotations stay, the data is replaced. */
  function Copy(existing: Option<Secret>, c: Subject, value: Bytes): Secret {
    var labels, annotations := if existing.Some? then existing.value.labels else map[],
                               if existing.Some? then existing.value.annotations else map[];
    Secret(labels[LABEL_MANAGED_BY := MANAGED_BY_VALUE][LABEL_CREDENTIAL := c.name],
           annotations[ANNOTATION_SOURCE := c.SourceNamespace() + "/" + c.spec.secretRef.name],
           "Opaque", map[c.spec.secretRef.key := value], Some(CredentialOwner(c.name)))
  }

  predicate Writes(net: Network, store: Store, c: Subject, namespace: string) {
    CanOwn(Lookup(store, c.CopyId(namespace)), c.name) && net(WriteSecret(namespace)) != Refused
  }

  predicate Syncs(net: Network, store: Store, c: Subject, namespace: string) {
    CanOwn(Lookup(store, c.CopyId(namespace)), c.name) && net(WriteSecret(namespace)) == Done
  }

  /** The store after the writes for a set of namespaces. */
  ghost function Written(net: Network, store: Store, c: Subject, value: Bytes, namespaces: set<string>): Store {
    store + map id: SecretId |
              id in (set n | n in namespaces && Writes(net, store, c, n) :: c.CopyId(n)) ::
                Copy(Lookup(store, id), c, value)
  }

  predicate Labelled(s: Secret, name: string) {
    LABEL_CREDENTIAL in s.labels && s.labels[LABEL_CREDENTIAL] == name
  }

  /** What pruneSecrets is after: this credential's label outside the authorized namespaces. */
  predicate Stale(id: SecretId, s: Secret, name: string, authorized: set<string>) {
    Labelled(s, name) && id.namespace !in authorized
  }

  ghost predicate Pruned(net: Network, pre: Store, post: Store, name: string, authorized: set<string>, ok: bool) {
    && (forall id :: id in post ==> id in pre && post[id] == pre[id])
    && (forall id :: id in pre && id !in post ==>
        Stale(id, pre[id], name, authorized) && net(DeleteSecret(id)) != Refused)
    && (ok ==> forall id :: id in post ==> !Stale(id, post[id], name, authorized))
    && (ok <==> net(ListSecrets) == Done
                && forall id :: id in pre && Stale(id, pre[id], name, authorized) ==> net(DeleteSecret(id)) == Done)
  }

  // ---- One pass ----

  datatype CredentialStatus = CredentialStatus(
    syncedNamespaces: seq<string>, referencingPolicies: seq<string>,
    committed: Option<TokenQuota>, available: Option<TokenQuota>, oversubscribed: bool)

  datatype PassResult = Failed | Unresolved | Reconciled(status: CredentialStatus)

  /** Everything outside the store that a pass depends on. */
  datatype Surroundings = Surroundings(
    namespaces: map<string, Labels>, clusterPolicies: seq<ClusterTokenPolicy>, tokenPolicies: seq<TokenPolicy>,
    net: Network)

  /** The namespaces a pass is going to write, if it gets that far. */
  ghost function Target(c: Subject, w: Surroundings, store: Store): Option<(Bytes, set<string>)> {
    if w.net(GetSource) != Done || ReadSource(c, store) == None then None
    else if c.spec.namespaceSelector.Some? && w.net(ListNamespaces) != Done then None
    else
      match Authorized(c.spec, w.namespaces)
      case Err(_) => None
      case Ok(authorized) => Some((ReadSource(c, store).value, authorized))
  }

  ghost predicate StatusTells(c: Subject, w: Surroundings, pre: Store, authorized: set<string>, s: CredentialStatus) {
    && Ascending(s.syncedNamespaces)
    && (forall n :: n in s.syncedNamespaces <==> n in authorized && Syncs(w.net, pre, c, n))
    && RollupTells(c, w, s)
  }

  /** The policies counted, their sums, and what is left of the declared capacity. */
  ghost predicate RollupTells(c: Subject, w: Surroundings, s: CredentialStatus) {
    && Ascending(s.referencingPolicies)
    && (forall k :: k in s.referencingPolicies <==>
        exists r :: r in References(w.clusterPolicies, w.tokenPolicies, c.name) && r.key == k)
    && Sums(s.committed, Counted(w.clusterPolicies, w.tokenPolicies, c.name))
    && s.available == (if c.spec.capacity == None then None else AvailableQuota(c.spec.capacity, s.committed))
    && s.oversubscribed == Oversubscribed(c.spec.capacity, s.committed)
  }

  /** What a pass may do to the store and report. */
  ghost predicate Pass(c: Subject, w: Surroundings, pre: Store, post: Store, r: PassResult) {
    match Target(c, w, pre)
    case None =>
      post == pre && !r.Reconciled? && (r.Unresolved? <==> w.net(GetSource) == Done && ReadSource(c, pre) == None)
    case Some((value, authorized)) =>
      && (exists ok :: Pruned(w.net, Written(w.net, pre, c, value, authorized), post, c.name, authorized, ok))
      && !r.Unresolved?
      && (r.Reconciled? ==> StatusTells(c, w, pre, authorized, r.status))
      && (NoFailures(w.net) ==> r.Reconciled?)
  }

  // ---- The reconciler ----

  class Reconciler {
    var secrets: Store

    constructor (secrets: Store)
      ensures this.secrets == secrets
    {
      this.secrets := secrets;
    }

    method AuthorizedNamespaces(c: Subject, w: Surroundings) returns (r: Option<set<string>>)
      ensures match r
              case Some(authorized) =>
                (c.spec.namespaceSelector.Some? ==> w.net(ListNamespaces) == Done)
                  && Authorized(c.spec, w.namespaces) == Ok(authorized)
              case None =>
                c.spec.namespaceSelector.Some?
                  && (w.net(ListNamespaces) != Done || Authorized(c.spec, w.namespaces).Err?)
    {
      var out: set<string> := {};
      for i := 0 to |c.spec.allowedNamespaces|
        invariant out == set j | 0 <= j < i :: c.spec.allowedNamespaces[j]
      {
        out := out + {c.spec.allowedNamespaces[i]};
      }
      ghost var explicit := out;
      assert explicit == set n | n in c.spec.allowedNamespaces;
      if c.spec.namespaceSelector.None? {
        return Some(out);
      }
      if w.net(ListNamespaces) != Done {
        return None;
      }
      var rest := w.namespaces.Keys;
      ghost var sel := c.spec.namespaceSelector.value;
      while rest != {}
        invariant rest <= w.namespaces.Keys
        invariant rest != w.namespaces.Keys ==> WellFormedSelector(sel)
        invariant out == explicit + set n | n in w.namespaces && n !in rest && LabelsMatch(sel, w.namespaces[n])
        decreases rest
      {
        var n :| n in rest;
        match SelectorMatches(c.spec.namespaceSelector, w.namespaces[n])
        case Err(_) =>
          assert w.namespaces != map[];
          return None;
        case Ok(b) =>
          if b {
            out := out + {n};
          }
          rest := rest - {n};
      }
      if w.namespaces != map[] {
        assert w.namespaces.Keys != {};
      }
      assert out == explicit + set n | n in w.namespaces && LabelsMatch(sel, w.namespaces[n]);
      return Some(out);
    }

    method SyncSecret(c: Subject, net: Network, namespace: string, value: Bytes) returns (ok: bool)
      modifies this
      ensures ok == Syncs(net, old(secrets), c, namespace)
      ensures secrets == if Writes(net, old(secrets), c, namespace)
                         then old(secrets)[c.CopyId(namespace) :=
                                           Copy(Lookup(old(secrets), c.CopyId(namespace)), c, value)]
                         else old(secrets)
    {
      var id := c.CopyId(namespace);
      var existing := Lookup(secrets, id);
      if !CanOwn(existing, c.name) || net(WriteSecret(namespace)) == Refused {
        return false;
      }
      secrets := secrets[id := Copy(existing, c, value)];
      return net(WriteSecret(namespace)) == Done;
    }

    /** The writes, in the arbitrary order in which the authorized set is walked. */
    method SyncAll(c: Subject, net: Network, authorized: set<string>, value: Bytes) returns (synced: seq<string>)
      modifies this
      ensures secrets == Written(net, old(secrets), c, value, authorized)
      ensures NoDuplicates(synced)
      ensures forall n :: n in synced <==> n in authorized && Syncs(net, old(secrets), c, n)
    {
      var rest := authorized;
      synced := [];
      while rest != {}
        invariant rest <= authorized && NoDuplicates(synced)
        invariant secrets == Written(net, old(secrets), c, value, authorized - rest)
        invariant forall n :: n in synced <==> n in authorized - rest && Syncs(net, old(secrets), c, n)
        decreases rest
      {
        var n :| n in rest;
        OneMoreWrite(net, old(secrets), c, value, authorized - rest, n);
        assert n !in synced;
        var ok := SyncSecret(c, net, n, value);
        assert authorized - rest + {n} == authorized - (rest - {n});
        rest := rest - {n};
        if ok {
          synced := synced + [n];
        }
      }
      assert authorized - {} == authorized;
    }

    method PruneSecrets(name: string, net: Network, authorized: set<string>) returns (ok: bool)
      modifies this
      ensures Pruned(net, old(secrets), secrets, name, authorized, ok)
    {
      if net(ListSecrets) != Done {
        return false;
      }
      var rest := set id | id in secrets && Labelled(secrets[id], name);
      while rest != {}
        invariant forall id :: id in rest ==> id in secrets && Labelled(secrets[id], name)
        invariant forall id :: id in secrets ==> id in old(secrets) && secrets[id] == old(secrets)[id]
        invariant forall id :: id in old(secrets) && id !in secrets ==>
                    Stale(id, old(secrets)[id], name, authorized) && net(DeleteSecret(id)) == Done
        invariant forall id :: id in secrets && Stale(id, secrets[id], name, authorized) ==> id in rest
        decreases rest
      {
        var id :| id in rest;
        rest := rest - {id};
        if id.namespace in authorized {
          continue;
        }
        if net(DeleteSecret(id)) != Refused {
          secrets := secrets - {id};
        }
        if net(DeleteSecret(id)) != Done {
          return false;
        }
      }
      return true;
    }

    /** The end of a pass: the policy rollup and the capacity fields, from fresh policy lists. */
    method Report(c: Subject, w: Surroundings, synced: seq<string>) returns (r: PassResult)
      requires Int64References(References(w.clusterPolicies, w.tokenPolicies, c.name))
      ensures r.Reconciled? || r.Failed?
      ensures r.Reconciled? <==> w.net(ListClusterPolicies) == Done && w.net(ListTokenPolicies) == Done
      ensures r.Reconciled? ==> r.status.syncedNamespaces == synced && RollupTells(c, w, r.status)
    {
      if w.net(ListClusterPolicies) != Done || w.net(ListTokenPolicies) != Done {
        return Failed;
      }
      var refs, committed := ReferencingPolicies(w.clusterPolicies, w.tokenPolicies, c.name);
      var available: Option<TokenQuota> := None;
      var over := false;
      if c.spec.capacity.Some? {
        available := AvailableQuota(c.spec.capacity, committed);
        over := Oversubscribed(c.spec.capacity, committed);
      }
      return Reconciled(CredentialStatus(synced, refs, committed, available, over));
    }

    method Reconcile(c: Subject, w: Surroundings) returns (r: PassResult)
      requires Int64References(References(w.clusterPolicies, w.tokenPolicies, c.name))
      modifies this
      ensures Pass(c, w, old(secrets), secrets, r)
    {
      if w.net(GetSource) != Done {
        return Failed;
      }
      var source := ReadSource(c, secrets);
      if source.None? {
        return Unresolved;
      }
      var authorized := AuthorizedNamespaces(c, w);
      if authorized.None? {
        return Failed;
      }
      var synced := SyncAll(c, w.net, authorized.value, source.value);
      SortStringsAscends(synced);
      synced := SortStrings(synced);
      var ok := PruneSecrets(c.name, w.net, authorized.value);
      r := Report(c, w, synced);
    }
  }

  lemma WrittenAt(net: Network, store: Store, c: Subject, value: Bytes, namespaces: set<string>, id: SecretId)
    ensures var w := Written(net, store, c, value, namespaces);
            if id.namespace in namespaces && id == c.CopyId(id.namespace) && Writes(net, store, c, id.namespace)
            then id in w && w[id] == Copy(Lookup(store, id), c, value)
            else Lookup(w, id) == Lookup(store, id)
  {
  }

  lemma SameStore(a: Store, b: Store)
    requires forall id: SecretId :: Lookup(a, id) == Lookup(b, id)
    ensures a == b
  {
    forall id: SecretId ensures id in a <==> id in b {
      assert Lookup(a, id) == Lookup(b, id);
    }
    forall id | id in a ensures a[id] == b[id] {
      assert Lookup(a, id) == Lookup(b, id);
    }
  }

  lemma OneMoreWrite(net: Network, store: Store, c: Subject, value: Bytes, done: set<string>, n: string)
    requires n !in done
    ensures var before, after := Written(net, store, c, value, done), Written(net, store, c, value, done + {n});
            && Lookup(before, c.CopyId(n)) == Lookup(store, c.CopyId(n))
            && after == if Writes(net, store, c, n)
                 then before[c.CopyId(n) := Copy(Lookup(store, c.CopyId(n)), c, value)] else before
  {
    var before, after := Written(net, store, c, value, done), Written(net, store, c, value, done + {n});
    WrittenAt(net, store, c, value, done, c.CopyId(n));
    var expected := if Writes(net, store, c, n) then before[c.CopyId(n) := Copy(Lookup(store, c.CopyId(n)), c, value)]
      else before;
    forall id: SecretId ensures Lookup(after, id) == Lookup(expected, id) {
      WrittenAt(net, store, c, value, done, id);
      WrittenAt(net, store, c, value, done + {n}, id);
    }
    SameStore(after, expected);
  }

  // ---- Self-stabilisation ----

  /** The copy in a namespace holds exactly {key: value}, names its source, and is labelled, typed and owned. */
  ghost predicate GoodCopy(c: Subject, store: Store, namespace: string, value: Bytes) {
    var id := c.CopyId(namespace);
    id in store && IsCopy(c, store[id], value)
  }

  ghost predicate IsCopy(c: Subject, s: Secret, value: Bytes) {
    && s.data == map[c.spec.secretRef.key := value] && Labelled(s, c.name)
    && s.controller == Some(CredentialOwner(c.name)) && s.kind == "Opaque"
    && LABEL_MANAGED_BY in s.labels && s.labels[LABEL_MANAGED_BY] == MANAGED_BY_VALUE
    && ANNOTATION_SOURCE in s.annotations
         && s.annotations[ANNOTATION_SOURCE] == c.SourceNamespace() + "/" + c.spec.secretRef.name
  }

  /** What one write leaves is a good copy that keeps every label and annotation the controller does not own. */
  lemma CopyIsGood(existing: Option<Secret>, c: Subject, value: Bytes)
    ensures IsCopy(c, Copy(existing, c, value), value)
    ensures existing.Some? ==>
              && Copy(existing, c, value).labels - {LABEL_MANAGED_BY, LABEL_CREDENTIAL}
                   == existing.value.labels - {LABEL_MANAGED_BY, LABEL_CREDENTIAL}
              && Copy(existing, c, value).annotations - {ANNOTATION_SOURCE}
                   == existing.value.annotations - {ANNOTATION_SOURCE}
  {
    assert LABEL_MANAGED_BY[0] != LABEL_CREDENTIAL[0];
  }

  /** Good copies everywhere they belong, and the credential's label nowhere else. */
  ghost predicate Exact(c: Subject, store: Store, authorized: set<string>, value: Bytes) {
    && (forall n :: n in authorized ==> GoodCopy(c, store, n, value))
    && (forall id :: id in store ==> !Stale(id, store[id], c.name, authorized))
  }

  /** What a failure-free pass leaves under one name: what the writes left, unless it is stale. */
  lemma PassAt(c: Subject, w: Surroundings, pre: Store, post: Store, r: PassResult,
               value: Bytes, authorized: set<string>, id: SecretId)
    requires Pass(c, w, pre, post, r) && NoFailures(w.net) && Target(c, w, pre) == Some((value, authorized))
    ensures var mid := Written(w.net, pre, c, value, authorized);
            Lookup(post, id) == if id in mid && !Stale(id, mid[id], c.name, authorized) then Some(mid[id]) else None
  {
    var mid := Written(w.net, pre, c, value, authorized);
    var ok :| Pruned(w.net, mid, post, c.name, authorized, ok);
  }

  /** Pruning does not touch authorized namespaces, whatever fails. */
  lemma PassAtAuthorized(c: Subject, w: Surroundings, pre: Store, post: Store, r: PassResult,
                         value: Bytes, authorized: set<string>, id: SecretId)
    requires Pass(c, w, pre, post, r) && Target(c, w, pre) == Some((value, authorized)) && id.namespace in authorized
    ensures Lookup(post, id) == Lookup(Written(w.net, pre, c, value, authorized), id)
  {
    var mid := Written(w.net, pre, c, value, authorized);
    var ok :| Pruned(w.net, mid, post, c.name, authorized, ok);
  }

  /**
   Whichever other calls fail, an authorized namespace holds a good copy afterwards iff the write took effect
   or a good copy was there; if its write succeeds, iff no other controller holds the name.
   */
  lemma GoodCopyExactly(c: Subject, w: Surroundings, pre: Store, post: Store, r: PassResult,
                        value: Bytes, authorized: set<string>, n: string)
    requires Pass(c, w, pre, post, r) && Target(c, w, pre) == Some((value, authorized)) && n in authorized
    ensures GoodCopy(c, post, n, value) <==> Writes(w.net, pre, c, n) || GoodCopy(c, pre, n, value)
    ensures w.net(WriteSecret(n)) == Done ==>
              (GoodCopy(c, post, n, value) <==> CanOwn(Lookup(pre, c.CopyId(n)), c.name))
  {
    PassAtAuthorized(c, w, pre, post, r, value, authorized, c.CopyId(n));
    WrittenAt(w.net, pre, c, value, authorized, c.CopyId(n));
    CopyIsGood(Lookup(pre, c.CopyId(n)), c, value);
  }

  /**
   From any store whatever, a pass that resolves its source and meets no failing call leaves the store exact
   if and only if no authorized namespace holds a Secret of the copy's name under another controller.
   */
  lemma PassStabilisesExactly(c: Subject, w: Surroundings, pre: Store, post: Store, r: PassResult,
                              value: Bytes, authorized: set<string>)
    requires Pass(c, w, pre, post, r) && NoFailures(w.net)
    requires Target(c, w, pre) == Some((value, authorized))
    ensures Exact(c, post, authorized, value) <==>
            forall n :: n in authorized ==> CanOwn(Lookup(pre, c.CopyId(n)), c.name)
  {
    forall n | n in authorized
      ensures GoodCopy(c, post, n, value) <==> CanOwn(Lookup(pre, c.CopyId(n)), c.name)
    {
      GoodCopyExactly(c, w, pre, post, r, value, authorized, n);
    }
    forall id | id in post ensures !Stale(id, post[id], c.name, authorized) {
      PassAt(c, w, pre, post, r, value, authorized, id);
    }
  }

  /**
   Copies in namespaces without authorization are pruned by a failure-free pass exactly if the source resolves
   or there are none: while the source Secret or its key is missing, pruning is not reached.
   */
  lemma PrunesExactly(c: Subject, w: Surroundings, pre: Store, post: Store, r: PassResult, authorized: set<string>)
    requires Pass(c, w, pre, post, r) && NoFailures(w.net) && Authorized(c.spec, w.namespaces) == Ok(authorized)
    ensures NothingStale(post, c.name, authorized) <==>
            ReadSource(c, pre).Some? || NothingStale(pre, c.name, authorized)
  {
    if ReadSource(c, pre).Some? {
      forall id | id in post ensures !Stale(id, post[id], c.name, authorized) {
        PassAt(c, w, pre, post, r, ReadSource(c, pre).value, authorized, id);
      }
    }
  }

  ghost predicate NothingStale(store: Store, name: string, authorized: set<string>) {
    forall id :: id in store ==> !Stale(id, store[id], name, authorized)
  }

  /** A Secret of the copy's name under another controller stays as it is in a pass in which no call fails. */
  lemma ForeignSecretStays() returns (c: Subject, w: Surroundings, pre: Store, post: Store, r: PassResult)
    ensures Pass(c, w, pre, post, r) && NoFailures(w.net) && r.Reconciled?
    ensures Target(c, w, pre) == Some(([], {"dev"})) && post == pre && !Exact(c, post, {"dev"}, [])
  {
    var spec := ModelCredential("openai", SecretRef("vault", "source", "key"), ["dev"], None, None, None);
    c := Subject("openai", spec, "token-control-system");
    w := Surroundings(map[], [], [], _ => Done);
    var source := Secret(map[], map[], "Opaque", map["key" := []], None);
    var foreign := Secret(map[], map[], "Opaque", map[], Some(ForeignOwner("other")));
    assert c.SourceId().name[0] != c.CopyId("dev").name[0];
    pre := map[c.SourceId() := source, c.CopyId("dev") := foreign];
    post := pre;
    r := Reconciled(CredentialStatus([], [], None, None, false));
    assert ReadSource(c, pre) == Some([]);
    assert (set n | n in spec.allowedNamespaces) == {"dev"};
    assert !CanOwn(Lookup(pre, c.CopyId("dev")), c.name);
    NothingWritten(w.net, pre, c, [], {"dev"});
    assert Pruned(w.net, pre, post, c.name, {"dev"}, true);
    EmptyRollup(c, w, r.status);
    assert !GoodCopy(c, post, "dev", []);
  }

  lemma NothingWritten(net: Network, store: Store, c: Subject, value: Bytes, namespaces: set<string>)
    requires forall n :: n in namespaces ==> !Writes(net, store, c, n)
    ensures Written(net, store, c, value, namespaces) == store
  {
    assert (set n | n in namespaces && Writes(net, store, c, n) :: c.CopyId(n)) == {};
  }

  lemma EmptyRollup(c: Subject, w: Surroundings, s: CredentialStatus)
    requires w.clusterPolicies == [] && w.tokenPolicies == [] && c.spec.capacity == None
    requires s == CredentialStatus(s.syncedNamespaces, [], None, None, false)
    ensures RollupTells(c, w, s)
  {
    assert References([], [], c.name) == [];
    NothingToSum();
  }

  /** A copy in a namespace without authorization survives a pass in which no call fails, for want of a source. */
  lemma MissingSourceKeepsStaleCopy() returns (c: Subject, w: Surroundings, pre: Store, post: Store, r: PassResult)
    ensures Pass(c, w, pre, post, r) && NoFailures(w.net) && Authorized(c.spec, w.namespaces) == Ok({})
    ensures var id := c.CopyId("dev");
            id in post && Stale(id, post[id], c.name, {}) && post[id].controller == Some(CredentialOwner(c.name))
  {
    var spec := ModelCredential("openai", SecretRef("vault", "source", "key"), [], None, None, None);
    c := Subject("openai", spec, "token-control-system");
    w := Surroundings(map[], [], [], _ => Done);
    pre := map[c.CopyId("dev") := Copy(None, c, [])];
    post, r := pre, Unresolved;
    assert c.SourceId().name[0] != c.CopyId("dev").name[0];
    assert (set n | n in spec.allowedNamespaces) == {};
  }

  lemma PrunedKeeps(net: Network, pre: Store, post: Store, name: string, authorized: set<string>, ok: bool,
                    id: SecretId)
    requires Pruned(net, pre, post, name, authorized, ok) && (id in pre ==> !Labelled(pre[id], name))
    ensures Lookup(post, id) == Lookup(pre, id)
  {
  }

  /** Whatever fails, a pass touches only its own copy names and Secrets carrying its own label. */
  lemma PassLeavesOthersAlone(c: Subject, w: Surroundings, pre: Store, post: Store, r: PassResult, id: SecretId)
    requires Pass(c, w, pre, post, r)
    requires id.name != MANAGED_SECRET_PREFIX + c.name && (id in pre ==> !Labelled(pre[id], c.name))
    ensures Lookup(post, id) == Lookup(pre, id)
  {
    match Target(c, w, pre) {
      case None =>
      case Some((value, authorized)) =>
        var mid := Written(w.net, pre, c, value, authorized);
        assert Lookup(mid, id) == Lookup(pre, id) by {
          WrittenAt(w.net, pre, c, value, authorized, id);
        }
        var ok :| Pruned(w.net, mid, post, c.name, authorized, ok);
        PrunedKeeps(w.net, mid, post, c.name, authorized, ok, id);
    }
  }

  /** In particular the copies of a differently named credential survive. */
  lemma OtherCredentialsUntouched(c: Subject, w: Surroundings, pre: Store, post: Store, r: PassResult,
                                  other: Subject, namespace: string, value: Bytes)
    requires Pass(c, w, pre, post, r) && other.name != c.name && GoodCopy(other, pre, namespace, value)
    ensures GoodCopy(other, post, namespace, value)
  {
    var id := other.CopyId(namespace);
    assert id.name[|MANAGED_SECRET_PREFIX|..] == other.name;
    assert (MANAGED_SECRET_PREFIX + c.name)[|MANAGED_SECRET_PREFIX|..] == c.name;
    PassLeavesOthersAlone(c, w, pre, post, r, id);
  }

  lemma CopyOfCopy(c: Subject, existing: Option<Secret>, value: Bytes)
    ensures Copy(Some(Copy(existing, c, value)), c, value) == Copy(existing, c, value)
  {
    var once := Copy(existing, c, value);
    assert once.labels[LABEL_MANAGED_BY := MANAGED_BY_VALUE][LABEL_CREDENTIAL := c.name] == once.labels;
    assert once.annotations[ANNOTATION_SOURCE := c.SourceNamespace() + "/" + c.spec.secretRef.name] == once.annotations;
  }

  /**
   After a failure-free pass a further pass over the same state changes no Secret, whichever of its own
   calls fail.
   */
  lemma SecondPassChangesNothing(c: Subject, w: Surroundings, pre: Store, post: Store, r: PassResult,
                                 w': Surroundings, last: Store, r': PassResult)
    requires Pass(c, w, pre, post, r) && NoFailures(w.net) && Target(c, w, pre).Some?
    requires w'.namespaces == w.namespaces && Pass(c, w', post, last, r')
    ensures last == post
  {
    if Target(c, w', post).Some? {
      var (value, authorized) := Target(c, w, pre).value;
      var (value', authorized') := Target(c, w', post).value;
      assert authorized' == authorized;
      var mid := Written(w.net, pre, c, value, authorized);
      var ok :| Pruned(w.net, mid, post, c.name, authorized, ok);
      SourceValueKept(c, w, pre, mid, post, value, authorized);
      assert value' == value;
      var mid' := Written(w'.net, post, c, value, authorized);
      var ok' :| Pruned(w'.net, mid', last, c.name, authorized, ok');
      RewriteAllIsNoop(c, w, pre, post, value, authorized, w'.net);
      NothingToPrune(w'.net, post, last, c.name, authorized, ok');
    }
  }

  lemma NothingToPrune(net: Network, store: Store, post: Store, name: string, authorized: set<string>, ok: bool)
    requires Pruned(net, store, post, name, authorized, ok)
    requires forall id :: id in store ==> !Stale(id, store[id], name, authorized)
    ensures post == store
  {
  }

  lemma RewriteAllIsNoop(c: Subject, w: Surroundings, pre: Store, post: Store, value: Bytes, authorized: set<string>,
                         net': Network)
    requires NoFailures(w.net)
    requires exists ok :: Pruned(w.net, Written(w.net, pre, c, value, authorized), post, c.name, authorized, ok)
    ensures Written(net', post, c, value, authorized) == post
  {
    forall id ensures Lookup(Written(net', post, c, value, authorized), id) == Lookup(post, id) {
      RewriteIsNoop(c, w, pre, post, value, authorized, net', id);
    }
    SameStore(Written(net', post, c, value, authorized), post);
  }

  lemma SourceValueKept(c: Subject, w: Surroundings, pre: Store, mid: Store, post: Store, value: Bytes,
                        authorized: set<string>)
    requires Target(c, w, pre) == Some((value, authorized)) && mid == Written(w.net, pre, c, value, authorized)
    requires forall id :: id in post ==> id in mid && post[id] == mid[id]
    ensures ReadSource(c, post) in {None, Some(value)}
  {
    WrittenAt(w.net, pre, c, value, authorized, c.SourceId());
  }

  lemma RewriteIsNoop(c: Subject, w: Surroundings, pre: Store, post: Store, value: Bytes, authorized: set<string>,
                      net': Network, id: SecretId)
    requires NoFailures(w.net)
    requires exists ok :: Pruned(w.net, Written(w.net, pre, c, value, authorized), post, c.name, authorized, ok)
    ensures Lookup(Written(net', post, c, value, authorized), id) == Lookup(post, id)
  {
    WrittenAt(net', post, c, value, authorized, id);
    WrittenAt(w.net, pre, c, value, authorized, id);
    CopyOfCopy(c, Lookup(pre, id), value);
  }

  /** The source itself survives a failure-free pass exactly unless it bears the label outside the snapshot. */
  lemma SourceSurvivesExactly(c: Subject, w: Surroundings, pre: Store, post: Store, r: PassResult,
                              value: Bytes, authorized: set<string>)
    requires Pass(c, w, pre, post, r) && NoFailures(w.net) && Target(c, w, pre) == Some((value, authorized))
    ensures ReadSource(c, post) == Some(value) <==> !Stale(c.SourceId(), pre[c.SourceId()], c.name, authorized)
  {
    var id := c.SourceId();
    PassAt(c, w, pre, post, r, value, authorized, id);
    var mid := Written(w.net, pre, c, value, authorized);
    SourceInMid(c, w, pre, value, authorized);
    assert ReadSource(c, post) == if Stale(id, mid[id], c.name, authorized) then None else Some(value);
  }

  /** Writing copies keeps the source value, even when a copy is the source, and its staleness. */
  lemma SourceInMid(c: Subject, w: Surroundings, pre: Store, value: Bytes, authorized: set<string>)
    requires Target(c, w, pre) == Some((value, authorized))
    ensures var id, mid := c.SourceId(), Written(w.net, pre, c, value, authorized);
            && ReadSource(c, mid) == Some(value)
            && (Stale(id, mid[id], c.name, authorized) <==> Stale(id, pre[id], c.name, authorized))
  {
    WrittenAt(w.net, pre, c, value, authorized, c.SourceId());
  }

  /** A source that bears the label in a namespace without authorization is deleted by a successful pass. */
  lemma PruningDeletesSource() returns (c: Subject, w: Surroundings, pre: Store, post: Store, r: PassResult)
    ensures Pass(c, w, pre, post, r) && NoFailures(w.net) && r.Reconciled?
    ensures ReadSource(c, pre).Some? && ReadSource(c, post) == None
  {
    var spec := ModelCredential("openai", SecretRef("vault", "source", "key"), [], None, None, None);
    c := Subject("openai", spec, "token-control-system");
    w := Surroundings(map[], [], [], _ => Done);
    var secret := Secret(map[LABEL_CREDENTIAL := "openai"], map[], "Opaque", map["key" := []], None);
    pre := map[c.SourceId() := secret];
    post := map[];
    r := Reconciled(CredentialStatus([], [], None, None, false));
    assert ReadSource(c, pre) == Some([]);
    assert Authorized(spec, map[]) == Ok({}) by {
      assert (set n | n in spec.allowedNamespaces) == {};
    }
    assert Written(w.net, pre, c, [], {}) == pre;
    assert Pruned(w.net, pre, post, c.name, {}, true);
    EmptyRollup(c, w, r.status);
  }
}
