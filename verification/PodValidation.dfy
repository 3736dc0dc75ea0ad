/** The validating pod webhook. */
module PodValidation {
  import opened Wrappers
  import opened Strings
  import opened Api
  import opened Resolver
  import opened ResolverEngine
  import opened ResolverTheorems
  import opened PermitTheorems
  import opened Declarations
  import opened ClusterState

  const ANNOTATION_MODELS := "governance.tokencontrol.io/models"

  datatype Config = Config(operatorNamespace: string, exemptNamespaces: set<string>)

  /** What admission reads of a pod. */
  datatype PodIdentity = PodIdentity(namespace: string, labels: Labels, serviceAccountName: string, models: string)

  predicate Exempt(cfg: Config, namespace: string) {
    namespace == "" || namespace == cfg.operatorNamespace || namespace in cfg.exemptNamespaces
  }

  /** The namespace on the admission request, else the one on the object. */
  function NamespaceOf(requestNamespace: string, pod: PodIdentity): string {
    if requestNamespace != "" then requestNamespace else pod.namespace
  }

  function AccountOf(pod: PodIdentity): (r: string)
    ensures r != ""
  {
    if pod.serviceAccountName != "" then pod.serviceAccountName else "default"
  }

  function WorkloadOf(pod: PodIdentity): Identity { Identity(Some(pod.labels), AccountOf(pod)) }

  /** All that is declared for the pod, duplicates and blanks included. */
  function RawFor(st: Cluster, namespace: string, pod: PodIdentity): seq<Declared> {
    RawDeclarations(ClaimsIn(st, namespace), pod.labels, AccountOf(pod), pod.models)
  }

  function DeclaredFor(st: Cluster, namespace: string, pod: PodIdentity): Result<seq<Declared>, Failure> {
    if ListClaims(namespace) in st.failing then Err(ReadFailed(ListClaims(namespace)))
    else Ok(DeclaredModels(ClaimsIn(st, namespace), pod.labels, AccountOf(pod), pod.models))
  }

  datatype AdmissionResponse =
    | Allowed(warnings: seq<ModelDecision>)
    | Forbidden(warnings: seq<ModelDecision>, violations: seq<ModelDecision>)

  /** The refusals among the declarations, in order. */
  function Refusals(f: Verdicts, ds: seq<Declared>): seq<ModelDecision> {
    if ds == [] then []
    else
      var d := f(ds[|ds| - 1].provider, ds[|ds| - 1].model);
      Refusals(f, ds[..|ds| - 1]) + (if d.allowed then [] else [d])
  }

  function Respond(e: Resolved, ds: seq<Declared>): AdmissionResponse {
    var refused := Refusals(Decide(e), ds);
    if !e.governed || e.enforcement == Disabled then Allowed([])
    else if e.enforcement == Enforce && refused != [] then Forbidden([], refused)
    else if e.enforcement == Enforce then Allowed([])
    else Allowed(refused)
  }

  function Response(cfg: Config, st: Cluster, requestNamespace: string, pod: PodIdentity): AdmissionResponse {
    var namespace := NamespaceOf(requestNamespace, pod);
    if Exempt(cfg, namespace) then Allowed([])
    else
      match DeclaredFor(st, namespace, pod)
      case Err(_) => Allowed([])
      case Ok(ds) =>
        match ResolveEffective(st, namespace, WorkloadOf(pod))
        case Err(_) => Allowed([])
        case Ok(e) => Respond(e, ds)
  }

  method ResolveFor(st: Cluster, namespace: string, id: Identity) returns (r: Result<Effective, Failure>)
    ensures match r
            case Ok(eff) => fresh(eff) && ResolveEffective(st, namespace, id) == Ok(eff.View())
            case Err(e) => ResolveEffective(st, namespace, id) == Err(e)
  {
    match GatherInput(st, namespace, id)
    case Err(e) => return Err(e);
    case Ok(input) =>
      var resolved := Effective.Resolve(input);
      match resolved
      case Err(e) => return Err(Unresolvable(e));
      case Ok(eff) => return Ok(eff);
  }

  method Validate(cfg: Config, st: Cluster, requestNamespace: string, pod: PodIdentity) returns (r: AdmissionResponse)
    ensures r == Response(cfg, st, requestNamespace, pod)
  {
    var namespace := NamespaceOf(requestNamespace, pod);
    if Exempt(cfg, namespace) || ListClaims(namespace) in st.failing {
      return Allowed([]);
    }
    var declared := DeclaredModelsForPod(ClaimsIn(st, namespace), pod.labels, AccountOf(pod), pod.models);
    if |declared| == 0 {
      return Allowed([]);
    }
    var resolved := ResolveFor(st, namespace, WorkloadOf(pod));
    if resolved.Err? {
      return Allowed([]);
    }
    var eff := resolved.value;
    r := Judge(eff, declared);
  }

  method Judge(eff: Effective, declared: seq<Declared>) returns (r: AdmissionResponse)
    ensures r == Respond(eff.View(), declared)
  {
    if !eff.governed || eff.enforcement == Disabled {
      return Allowed([]);
    }
    ghost var f := Decide(eff.View());
    var warnings: seq<ModelDecision>, violations: seq<ModelDecision> := [], [];
    for i := 0 to |declared|
      invariant violations == if eff.enforcement == Enforce then Refusals(f, declared[..i]) else []
      invariant warnings == if eff.enforcement == Enforce then [] else Refusals(f, declared[..i])
    {
      assert declared[..i + 1][..i] == declared[..i];
      var d := eff.Permit(declared[i].provider, declared[i].model);
      assert d == f(declared[i].provider, declared[i].model);
      if d.allowed {
        continue;
      }
      if eff.enforcement == Enforce {
        violations := violations + [d];
      } else {
        warnings := warnings + [d];
      }
    }
    assert declared[..|declared|] == declared;
    if |violations| > 0 {
      return Forbidden(warnings, violations);
    }
    return Allowed(warnings);
  }

  // ---- Admission is exact despite de-duplication ----

  /** The declaration counts and the hierarchy refuses it. */
  ghost predicate Refused(f: Verdicts, d: Declared) {
    NonBlank(d) && !f(d.provider, d.model).allowed
  }

  predicate Rejects(f: Verdicts, d: Declared) { !f(d.provider, d.model).allowed }

  lemma {:induction false} RefusalsEmpty(f: Verdicts, ds: seq<Declared>)
    ensures Refusals(f, ds) != [] <==> exists d :: d in ds && Rejects(f, d)
  {
    if ds == [] {
    } else {
      var n := |ds| - 1;
      RefusalsEmpty(f, ds[..n]);
      assert ds == ds[..n] + [ds[n]];
      assert ds[n] in ds && (Refusals(f, ds) == [] <==> Refusals(f, ds[..n]) == [] && !Rejects(f, ds[n]));
    }
  }

  lemma {:induction false} CleanedEntry(ds: seq<Declared>, d: Declared)
    requires d in ds && NonBlank(d)
    ensures Trim(d) in Cleaned(ds)
  {
    var n := |ds| - 1;
    assert ds == ds[..n] + [ds[n]];
    if d in ds[..n] {
      CleanedEntry(ds[..n], d);
    }
  }

  lemma {:induction false} CleanedOrigin(ds: seq<Declared>, c: Declared) returns (d: Declared)
    requires c in Cleaned(ds)
    ensures d in ds && NonBlank(d) && c == Trim(d)
  {
    var n := |ds| - 1;
    if c in Cleaned(ds[..n]) {
      d := CleanedOrigin(ds[..n], c);
    } else {
      d := ds[n];
    }
  }

  /** A raw declaration and a merged one stand for the same key. */
  ghost predicate Represents(m: Declared, raw: Declared) {
    NonBlank(raw) && Trim(m) == m && DeclaredKey(m) == DeclaredKey(Trim(raw))
  }

  /** Verdicts do not tell a merged declaration from what it represents. */
  ghost predicate Faithful(f: Verdicts) {
    forall m, raw :: Represents(m, raw) ==> (Rejects(f, m) <==> Refused(f, raw))
  }

  lemma PermitIsFaithful(e: Resolved)
    ensures Faithful(Decide(e))
  {
    forall m, raw | Represents(m, raw) ensures Rejects(Decide(e), m) <==> Refused(Decide(e), raw) {
      PermitCongruent(e, raw.provider, raw.model, m.provider, m.model);
    }
  }

  /** Every nonblank raw declaration is represented in the merge ... */
  lemma RepresentativeOf(raw: seq<Declared>, d: Declared) returns (m: Declared)
    requires d in raw && NonBlank(d)
    ensures m in Merge(Cleaned(raw)) && Represents(m, d)
  {
    CleanedEntry(raw, d);
    m := MergeEntry(Cleaned(raw), Trim(d));
    MergeTrimmed(raw, m);
  }

  lemma MergeTrimmed(raw: seq<Declared>, m: Declared)
    requires m in Merge(Cleaned(raw))
    ensures Trim(m) == m
  {
    var f := MergeOrigin(Cleaned(raw), m);
    var d := CleanedOrigin(raw, Cleaned(raw)[f]);
    TrimSpaceTrims(d.provider);
    TrimSpaceFixes(m.provider);
    TrimSpaceTrims(d.model);
    TrimSpaceFixes(m.model);
  }

  /** ... and the merge holds nothing else. */
  lemma OriginOf(raw: seq<Declared>, m: Declared) returns (d: Declared)
    requires m in Merge(Cleaned(raw))
    ensures d in raw && Represents(m, d)
  {
    var f := MergeOrigin(Cleaned(raw), m);
    d := CleanedOrigin(raw, Cleaned(raw)[f]);
    MergeTrimmed(raw, m);
  }

  lemma MergedRefusals(f: Verdicts, raw: seq<Declared>)
    requires Faithful(f)
    ensures Refusals(f, Merge(Cleaned(raw))) != [] <==> exists d :: d in raw && Refused(f, d)
  {
    RefusalsEmpty(f, Merge(Cleaned(raw)));
    if d :| d in raw && Refused(f, d) {
      var m := RepresentativeOf(raw, d);
      assert Rejects(f, m);
    }
    if m :| m in Merge(Cleaned(raw)) && Rejects(f, m) {
      var d := OriginOf(raw, m);
      assert Refused(f, d);
    }
  }

  /** The scope is not exempt and every read of the request succeeds, resolving to e. */
  ghost predicate Reaches(cfg: Config, st: Cluster, namespace: string, pod: PodIdentity, e: Resolved) {
    !Exempt(cfg, namespace) && ListClaims(namespace) !in st.failing
    && ResolveEffective(st, namespace, WorkloadOf(pod)) == Ok(e)
  }

  lemma ReachedResponse(cfg: Config, st: Cluster, requestNamespace: string, pod: PodIdentity, e: Resolved)
    requires Reaches(cfg, st, NamespaceOf(requestNamespace, pod), pod, e)
    ensures Response(cfg, st, requestNamespace, pod) ==
            Respond(e, Merge(Cleaned(RawFor(st, NamespaceOf(requestNamespace, pod), pod))))
  {
  }

  /** In Enforce mode a pod is rejected iff some nonblank declaration made for it is refused. */
  lemma AdmissionExact(cfg: Config, st: Cluster, requestNamespace: string, pod: PodIdentity, e: Resolved)
    requires Reaches(cfg, st, NamespaceOf(requestNamespace, pod), pod, e)
    requires e.governed && e.enforcement == Enforce
    ensures Response(cfg, st, requestNamespace, pod).Forbidden? <==>
            exists d :: d in RawFor(st, NamespaceOf(requestNamespace, pod), pod) && Refused(Decide(e), d)
  {
    var raw := RawFor(st, NamespaceOf(requestNamespace, pod), pod);
    ReachedResponse(cfg, st, requestNamespace, pod, e);
    PermitIsFaithful(e);
    MergedRefusals(Decide(e), raw);
  }

  /** A pod is never rejected outside Enforce mode, in exempt or ungoverned scopes, or when a read fails. */
  lemma RejectionNeedsEnforce(cfg: Config, st: Cluster, requestNamespace: string, pod: PodIdentity)
    requires Response(cfg, st, requestNamespace, pod).Forbidden?
    ensures exists e ::
            Reaches(cfg, st, NamespaceOf(requestNamespace, pod), pod, e) && e.governed && e.enforcement == Enforce
  {
    var e := ResolveEffective(st, NamespaceOf(requestNamespace, pod), WorkloadOf(pod)).value;
    assert Reaches(cfg, st, NamespaceOf(requestNamespace, pod), pod, e);
  }

  // ---- One report per refused key ----

  /** The distinct keys among the refused raw declarations. */
  ghost function RefusedKeys(f: Verdicts, raw: seq<Declared>): set<ModelKey> {
    set d | d in raw && Refused(f, d) :: DeclaredKey(Trim(d))
  }

  ghost function RejectedKeys(f: Verdicts, ds: seq<Declared>): set<ModelKey> {
    set d | d in ds && Rejects(f, d) :: DeclaredKey(d)
  }

  function DecisionKey(d: ModelDecision): ModelKey { Resolver.ModelKey(ToLower(d.provider), ToLower(d.model)) }

  /** The reports are refusals, no two of them for one key, and together they are for exactly these keys. */
  ghost predicate OncePerKey(reports: seq<ModelDecision>, keys: set<ModelKey>) {
    && (forall i :: 0 <= i < |reports| ==> !reports[i].allowed && DecisionKey(reports[i]) in keys)
    && (forall i, j :: 0 <= i < j < |reports| ==> DecisionKey(reports[i]) != DecisionKey(reports[j]))
    && (forall k :: k in keys ==> exists i :: 0 <= i < |reports| && DecisionKey(reports[i]) == k)
  }

  lemma OneMoreReport(reports: seq<ModelDecision>, keys: set<ModelKey>, d: ModelDecision)
    requires OncePerKey(reports, keys) && !d.allowed && DecisionKey(d) !in keys
    ensures OncePerKey(reports + [d], keys + {DecisionKey(d)})
  {
    var more := reports + [d];
    forall k | k in keys + {DecisionKey(d)} ensures exists i :: 0 <= i < |more| && DecisionKey(more[i]) == k {
      if k in keys {
        var i :| 0 <= i < |reports| && DecisionKey(reports[i]) == k;
        assert more[i] == reports[i];
      } else {
        assert more[|reports|] == d;
      }
    }
  }

  /** A decision carries the query it was made for. */
  ghost predicate Echoes(f: Verdicts) {
    forall p, m :: f(p, m).provider == p && f(p, m).model == m
  }

  lemma {:induction false} RefusalsOncePerKey(f: Verdicts, ds: seq<Declared>)
    requires Echoes(f)
    requires forall i, j :: 0 <= i < j < |ds| ==> DeclaredKey(ds[i]) != DeclaredKey(ds[j])
    ensures OncePerKey(Refusals(f, ds), RejectedKeys(f, ds))
  {
    if ds == [] {
    } else {
      var n := |ds| - 1;
      var before := RejectedKeys(f, ds[..n]);
      RefusalsOncePerKey(f, ds[..n]);
      assert ds == ds[..n] + [ds[n]];
      assert DeclaredKey(ds[n]) !in before;
      if Rejects(f, ds[n]) {
        OneMoreReport(Refusals(f, ds[..n]), before, f(ds[n].provider, ds[n].model));
        assert RejectedKeys(f, ds) == before + {DeclaredKey(ds[n])};
      } else {
        assert RejectedKeys(f, ds) == before && Refusals(f, ds) == Refusals(f, ds[..n]);
      }
    }
  }

  lemma MergedRejectedKeys(f: Verdicts, raw: seq<Declared>)
    requires Faithful(f)
    ensures RejectedKeys(f, Merge(Cleaned(raw))) == RefusedKeys(f, raw)
  {
    var merged := Merge(Cleaned(raw));
    forall k | k in RefusedKeys(f, raw) ensures k in RejectedKeys(f, merged) {
      var d :| d in raw && Refused(f, d) && DeclaredKey(Trim(d)) == k;
      var m := RepresentativeOf(raw, d);
      assert Rejects(f, m);
    }
    forall k | k in RejectedKeys(f, merged) ensures k in RefusedKeys(f, raw) {
      var m :| m in merged && Rejects(f, m) && DeclaredKey(m) == k;
      var d := OriginOf(raw, m);
      assert Refused(f, d);
    }
  }

  lemma MergedOncePerKey(f: Verdicts, raw: seq<Declared>)
    requires Faithful(f) && Echoes(f)
    ensures OncePerKey(Refusals(f, Merge(Cleaned(raw))), RefusedKeys(f, raw))
  {
    MergeDistinct(Cleaned(raw));
    MergedRejectedKeys(f, raw);
    RefusalsOncePerKey(f, Merge(Cleaned(raw)));
  }

  lemma MergedRefusalsOncePerKey(e: Resolved, raw: seq<Declared>)
    ensures OncePerKey(Refusals(Decide(e), Merge(Cleaned(raw))), RefusedKeys(Decide(e), raw))
  {
    PermitIsFaithful(e);
    MergedOncePerKey(Decide(e), raw);
  }

  /** In Audit mode the pod is admitted with exactly one warning for each distinct refused key, and no other. */
  lemma AuditWarnsOncePerKey(cfg: Config, st: Cluster, requestNamespace: string, pod: PodIdentity, e: Resolved)
    requires Reaches(cfg, st, NamespaceOf(requestNamespace, pod), pod, e)
    requires e.governed && e.enforcement == Audit
    ensures var r := Response(cfg, st, requestNamespace, pod);
            r.Allowed?
              && OncePerKey(r.warnings, RefusedKeys(Decide(e), RawFor(st, NamespaceOf(requestNamespace, pod), pod)))
  {
    ReachedResponse(cfg, st, requestNamespace, pod, e);
    MergedRefusalsOncePerKey(e, RawFor(st, NamespaceOf(requestNamespace, pod), pod));
  }

  /** A rejection lists exactly one violation for each distinct refused key, and no warning. */
  lemma RejectionListsOncePerKey(cfg: Config, st: Cluster, requestNamespace: string, pod: PodIdentity, e: Resolved)
    requires Reaches(cfg, st, NamespaceOf(requestNamespace, pod), pod, e)
    requires Response(cfg, st, requestNamespace, pod).Forbidden?
    ensures var r := Response(cfg, st, requestNamespace, pod);
            && r.warnings == []
            && OncePerKey(r.violations, RefusedKeys(Decide(e), RawFor(st, NamespaceOf(requestNamespace, pod), pod)))
  {
    ReachedResponse(cfg, st, requestNamespace, pod, e);
    MergedRefusalsOncePerKey(e, RawFor(st, NamespaceOf(requestNamespace, pod), pod));
  }

  // ---- Enforcement is overridden, not narrowed ----

  lemma {:induction false} RefusalsStand(f: Verdicts, g: Verdicts, ds: seq<Declared>)
    requires forall p, m :: f(p, m).allowed ==> g(p, m).allowed
    requires Refusals(g, ds) != []
    ensures Refusals(f, ds) != []
  {
    RefusalsEmpty(g, ds);
    RefusalsEmpty(f, ds);
    var d :| d in ds && Rejects(g, d);
    assert Rejects(f, d);
  }

  /**
   What the namespace default rejects, a workload's own resolution rejects exactly if no workload policy sets
   the mode, or the last one that does sets Enforce.
   */
  lemma RejectionStandsExactly(input: ResolveInput, e: Resolved, base: Resolved, ds: seq<Declared>)
    requires Resolve(input) == Ok(e) && Resolve(input.(identity := NO_IDENTITY)) == Ok(base)
    requires Respond(base, ds).Forbidden?
    ensures Respond(e, ds).Forbidden? <==>
            ((exists l :: l in WorkloadChain(input) && l.enforcement != EnforcementUnset) ==>
               EnforcementOf(WorkloadChain(input)) == Enforce)
  {
    forall p, m | Decide(e)(p, m).allowed ensures Decide(base)(p, m).allowed {
      NarrowNeverWiden(input, e, p, m);
    }
    RefusalsStand(Decide(e), Decide(base), ds);
    ModesAlongChain(input, e, base);
  }

  lemma ModesAlongChain(input: ResolveInput, e: Resolved, base: Resolved)
    requires Resolve(input) == Ok(e) && Resolve(input.(identity := NO_IDENTITY)) == Ok(base)
    ensures base.governed ==> e.governed
    ensures e.enforcement == if exists l :: l in WorkloadChain(input) && l.enforcement != EnforcementUnset
                             then EnforcementOf(WorkloadChain(input)) else base.enforcement
  {
    var inherited := ClusterChain(input) + DefaultChain(input);
    NoIdentityNoWorkloads(NO_IDENTITY, input.namespacePolicies);
    assert WorkloadChain(input.(identity := NO_IDENTITY)) == [] && inherited + [] == inherited;
    EnforcementConcat(inherited, WorkloadChain(input));
  }
}
