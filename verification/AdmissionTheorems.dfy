/** What is declared for a pod and when it is rejected, over the fields of the pod, the claims and the cluster. */
module AdmissionTheorems {
  import opened Wrappers
  import opened Strings
  import opened StringTheorems
  import opened Sorting
  import opened Api
  import opened Resolver
  import opened ResolverTheorems
  import opened SelectionTheorems
  import opened Declarations
  import opened ClusterState
  import opened PodValidation

  // ---- The annotation ----

  /** The token reads as provider, slash, model; blanks around either do not count. */
  ghost predicate TokenReads(tok: string, d: Declared) {
    exists p, m :: TrimSpace(tok) == p + "/" + m && '/' !in p && p != "" && m != ""
                   && d == Declared(TrimSpace(p), TrimSpace(m), "")
  }

  lemma TokenReadsExactly(tok: string, d: Declared)
    ensures d in ParseToken(tok) <==> TokenReads(tok, d)
  {
    var t := TrimSpace(tok);
    match Cut(t, '/') {
      case None =>
        forall p: string, m: string ensures '/' in p + "/" + m {
          assert (p + "/" + m)[|p|] == '/';
        }
      case Some((a, b)) =>
        assert t == a + "/" + b;
        forall p: string, m: string | t == p + "/" + m && '/' !in p ensures p == a && m == b {
          CutFinds(p, m, '/');
          assert p + ['/'] + m == t;
        }
    }
  }

  lemma LastTokenReads(toks: seq<string>, d: Declared)
    requires toks != []
    ensures var n := |toks| - 1;
            SomeTokenReads(toks, d) <==> SomeTokenReads(toks[..n], d) || TokenReads(toks[n], d)
  {
    assert forall i :: 0 <= i < |toks| - 1 ==> toks[..|toks| - 1][i] == toks[i];
  }

  lemma {:induction false} TokensRead(toks: seq<string>, d: Declared)
    ensures d in ParseTokens(toks) <==> SomeTokenReads(toks, d)
  {
    if toks == [] {
    } else {
      var n := |toks| - 1;
      TokensRead(toks[..n], d);
      TokenReadsExactly(toks[n], d);
      LastTokenReads(toks, d);
    }
  }

  ghost predicate SomeTokenReads(toks: seq<string>, d: Declared) {
    exists i :: 0 <= i < |toks| && TokenReads(toks[i], d)
  }

  /** The annotation declares exactly what its comma-separated tokens read as. */
  lemma ParsedByTokens(raw: string, d: Declared)
    ensures d in Parsed(raw) <==> SomeTokenReads(Split(raw, ','), d)
  {
    TokensRead(Split(raw, ','), d);
    if TrimSpace(raw) == "" {
      BlankSplits(raw);
      TokenReadsExactly(raw, d);
    }
  }

  lemma BlankSplits(raw: string)
    requires TrimSpace(raw) == ""
    ensures Split(raw, ',') == [raw]
  {
    var front, back := TrimSpaceExactly(raw);
    SplitWithoutSeparator(raw, ',');
  }

  /** Padding a token with blanks, on either side of the slash too, changes nothing. */
  lemma PaddedToken(tok: string, a: string, p: string, b: string, c: string, m: string, d: string)
    requires Blank(a) && Blank(b) && Blank(c) && Blank(d)
    requires p != "" && Trimmed(p) && '/' !in p && m != "" && Trimmed(m)
    requires tok == a + ((p + b) + "/" + (c + m)) + d
    ensures ParseToken(tok) == [Declared(p, m, "")]
  {
    PaddedTrims(a, p + b, c + m, d);
    BlankHasNoSlash(b);
    CutFinds(p + b, c + m, '/');
    Margins(p, b, c, m);
  }

  lemma PaddedTrims(a: string, x: string, y: string, d: string)
    requires Blank(a) && Blank(d) && x != "" && !IsSpace(x[0]) && y != "" && !IsSpace(y[|y| - 1])
    ensures TrimSpace(a + (x + "/" + y) + d) == x + "/" + y
  {
    var t := x + "/" + y;
    assert t[0] == x[0] && t[|t| - 1] == y[|y| - 1];
    TrimSpaceFinds(a, t, d);
  }

  lemma Margins(p: string, b: string, c: string, m: string)
    requires Blank(b) && Blank(c) && Trimmed(p) && Trimmed(m)
    ensures TrimSpace(p + b) == p && TrimSpace(c + m) == m
  {
    TrimSpaceFinds("", p, b);
    TrimSpaceFinds(c, m, "");
    assert "" + p + b == p + b && c + m + "" == c + m;
  }

  lemma BlankHasNoSlash(s: string)
    requires Blank(s)
    ensures '/' !in s
  {
  }

  // ---- Claims ----

  ghost predicate ClaimSelects(c: ModelClaim, labels: Labels, account: string) {
    c.selector.Some? ==>
      && AccountFits(c.selector.value, account) && ParsesIfAny(c.selector.value.podSelector)
      && MetIfAny(c.selector.value.podSelector, labels)
  }

  ghost function Preferred(m: ModelRequest): string { if m.credentialRef.Some? then m.credentialRef.value else "" }

  lemma ClaimCoversExactly(c: ModelClaim, labels: Labels, account: string)
    ensures ClaimCovers(labels, account)(c) <==> ClaimSelects(c, labels, account)
  {
    WorkloadSelectorExactly(c.selector, labels, account);
  }

  ghost predicate Requested(c: ModelClaim, d: Declared) {
    exists m :: m in c.models && d == Declared(m.provider, m.model, Preferred(m))
  }

  ghost predicate SomeClaimRequests(claims: seq<ModelClaim>, labels: Labels, account: string, d: Declared) {
    exists c :: c in claims && ClaimSelects(c, labels, account) && Requested(c, d)
  }

  lemma RequestsExactly(c: ModelClaim, d: Declared)
    ensures d in Requests(c.models) <==> Requested(c, d)
  {
    if m :| m in c.models && d == Declared(m.provider, m.model, Preferred(m)) {
      var i :| 0 <= i < |c.models| && c.models[i] == m;
      assert Requests(c.models)[i] == d;
    }
  }

  lemma {:induction false} ClaimDeclarationsExactly(claims: seq<ModelClaim>, labels: Labels, account: string,
                                                    d: Declared)
    ensures d in ClaimDeclarations(claims, labels, account) <==> SomeClaimRequests(claims, labels, account, d)
  {
    if claims == [] {
    } else {
      var n := |claims| - 1;
      ClaimDeclarationsExactly(claims[..n], labels, account, d);
      ClaimCoversExactly(claims[n], labels, account);
      RequestsExactly(claims[n], d);
      assert claims == claims[..n] + [claims[n]];
    }
  }

  /** Everything declared: by a claim that selects the pod, or by the annotation. */
  ghost predicate Declares(claims: seq<ModelClaim>, labels: Labels, account: string, annotation: string, d: Declared) {
    || SomeClaimRequests(claims, labels, account, d)
    || SomeTokenReads(Split(annotation, ','), d)
  }

  lemma DeclaresExactly(claims: seq<ModelClaim>, labels: Labels, account: string, annotation: string, d: Declared)
    ensures d in RawDeclarations(claims, labels, account, annotation) <==>
            Declares(claims, labels, account, annotation, d)
  {
    var sorted := Sort(ClaimKey, claims);
    ClaimDeclarationsExactly(sorted, labels, account, d);
    ParsedByTokens(annotation, d);
    assert SomeClaimRequests(sorted, labels, account, d) <==> SomeClaimRequests(claims, labels, account, d) by {
      SortedHasSame(claims);
    }
  }

  lemma SortedHasSame(claims: seq<ModelClaim>)
    ensures forall c :: c in Sort(ClaimKey, claims) <==> c in claims
  {
    SortSorts(ClaimKey, claims);
    forall c ensures c in Sort(ClaimKey, claims) <==> c in claims {
      assert c in multiset(Sort(ClaimKey, claims)) <==> c in multiset(claims);
    }
  }

  // ---- Whose preference ----

  ghost predicate DistinctClaimNames(claims: seq<ModelClaim>) {
    forall i, j :: 0 <= i < j < |claims| ==> claims[i].name != claims[j].name
  }

  /** The order in which claims are listed does not matter. */
  lemma ClaimOrderIsForgotten(a: seq<ModelClaim>, b: seq<ModelClaim>, labels: Labels, account: string,
                              annotation: string)
    requires multiset(a) == multiset(b) && DistinctClaimNames(a)
    ensures DeclaredModels(a, labels, account, annotation) == DeclaredModels(b, labels, account, annotation)
  {
    assert DistinctKeys(ClaimKey, a) by {
      assert forall i, j :: 0 <= i < j < |a| && a[i].name != a[j].name ==> ClaimKey(a[i]) != ClaimKey(a[j]);
    }
    SortForgetsOrder(ClaimKey, a, b);
  }

  ghost predicate Prefers(c: ModelClaim, k: ModelKey, credential: string) {
    exists m :: m in c.models && TrimSpace(m.provider) != "" && TrimSpace(m.model) != ""
                && Resolver.ModelKey(Norm(m.provider), Norm(m.model)) == k && Preferred(m) == credential != ""
  }

  lemma {:induction false} PreferenceConcat(a: seq<Declared>, b: seq<Declared>, k: ModelKey)
    ensures Preference(a + b, k) == if Preference(a, k) != "" then Preference(a, k) else Preference(b, k)
  {
    if b == [] {
      assert a + b == a;
    } else {
      var n := |b| - 1;
      assert (a + b)[..|a + b| - 1] == a + b[..n];
      PreferenceConcat(a, b[..n], k);
    }
  }

  lemma {:induction false} CleanedConcat(a: seq<Declared>, b: seq<Declared>)
    ensures Cleaned(a + b) == Cleaned(a) + Cleaned(b)
  {
    if b == [] {
      assert a + b == a;
    } else {
      var n := |b| - 1;
      assert (a + b)[..|a + b| - 1] == a + b[..n];
      CleanedConcat(a, b[..n]);
    }
  }

  /** What a claim's requests prefer for a key: nothing, or a credential one of them prefers. */
  lemma PreferenceOfClaim(c: ModelClaim, k: ModelKey)
    ensures var p := Preference(Cleaned(Requests(c.models)), k);
            if p == "" then forall x :: !Prefers(c, k, x) else Prefers(c, k, p)
  {
    var ds := Cleaned(Requests(c.models));
    PreferenceIsFirst(ds, k);
    forall d | d in ds && DeclaredKey(d) == k && d.credential != "" ensures Prefers(c, k, d.credential) {
      var raw := CleanedOrigin(Requests(c.models), d);
      RequestsExactly(c, raw);
    }
    forall x | Prefers(c, k, x) ensures exists d :: d in ds && DeclaredKey(d) == k && d.credential == x != "" {
      var m :| m in c.models && TrimSpace(m.provider) != "" && TrimSpace(m.model) != ""
               && Resolver.ModelKey(Norm(m.provider), Norm(m.model)) == k && Preferred(m) == x != "";
      var raw := Declared(m.provider, m.model, Preferred(m));
      RequestsExactly(c, raw);
      CleanedEntry(Requests(c.models), raw);
      assert DeclaredKey(Trim(raw)) == k;
    }
  }

  ghost function PreferenceAmong(claims: seq<ModelClaim>, labels: Labels, account: string, k: ModelKey): string {
    Preference(Cleaned(ClaimDeclarations(claims, labels, account)), k)
  }

  lemma PreferenceLast(claims: seq<ModelClaim>, labels: Labels, account: string, k: ModelKey)
    requires claims != []
    ensures var n := |claims| - 1;
            var earlier, own :=
              PreferenceAmong(claims[..n], labels, account, k), Preference(Cleaned(Requests(claims[n].models)), k);
            PreferenceAmong(claims, labels, account, k)
            == if earlier != "" || !ClaimSelects(claims[n], labels, account) then earlier else own
  {
    var n := |claims| - 1;
    var before := ClaimDeclarations(claims[..n], labels, account);
    ClaimCoversExactly(claims[n], labels, account);
    if ClaimSelects(claims[n], labels, account) {
      CleanedConcat(before, Requests(claims[n].models));
      PreferenceConcat(Cleaned(before), Cleaned(Requests(claims[n].models)), k);
    } else {
      assert before + [] == before;
    }
  }

  /** Among claims in name order, the first that selects the pod and prefers a credential for the key decides. */
  lemma {:induction false} FirstClaimDecides(claims: seq<ModelClaim>, labels: Labels, account: string, k: ModelKey,
                                             i: int)
    requires 0 <= i < |claims| && ClaimSelects(claims[i], labels, account)
    requires Preference(Cleaned(Requests(claims[i].models)), k) != ""
    requires forall j :: 0 <= j < i && ClaimSelects(claims[j], labels, account) ==>
               Preference(Cleaned(Requests(claims[j].models)), k) == ""
    ensures PreferenceAmong(claims, labels, account, k) == Preference(Cleaned(Requests(claims[i].models)), k)
  {
    var n := |claims| - 1;
    PreferenceLast(claims, labels, account, k);
    if i == n {
      NoClaimDecides(claims[..n], labels, account, k);
    } else {
      FirstClaimDecides(claims[..n], labels, account, k, i);
    }
  }

  lemma {:induction false} NoClaimDecides(claims: seq<ModelClaim>, labels: Labels, account: string, k: ModelKey)
    requires forall j :: 0 <= j < |claims| && ClaimSelects(claims[j], labels, account) ==>
               Preference(Cleaned(Requests(claims[j].models)), k) == ""
    ensures PreferenceAmong(claims, labels, account, k) == ""
  {
    if claims == [] {
    } else {
      PreferenceLast(claims, labels, account, k);
      NoClaimDecides(claims[..|claims| - 1], labels, account, k);
    }
  }

  /**
   The preference a declaration is merged with is that of the first-named claim that selects the pod and
   prefers a credential for the model.
   */
  lemma FirstNamedClaimPrefers(claims: seq<ModelClaim>, labels: Labels, account: string, annotation: string,
                               c: ModelClaim, k: ModelKey)
    requires c in claims && ClaimSelects(c, labels, account) && (exists x :: Prefers(c, k, x))
    requires forall d, x :: d in claims && ClaimSelects(d, labels, account) && Prefers(d, k, x) && d != c ==>
               StrLess(c.name, d.name)
    ensures Prefers(c, k, Preference(Cleaned(RawDeclarations(claims, labels, account, annotation)), k))
  {
    var sorted := Sort(ClaimKey, claims);
    SortSorts(ClaimKey, claims);
    SortedHasSame(claims);
    var i := FirstPlace(sorted, c);
    forall j | 0 <= j < i && ClaimSelects(sorted[j], labels, account)
      ensures Preference(Cleaned(Requests(sorted[j].models)), k) == ""
    {
      PreferenceOfClaim(sorted[j], k);
      assert !KeyLess(ClaimKey(sorted[i]), ClaimKey(sorted[j]));
      assert sorted[j] in sorted;
    }
    PreferenceOfClaim(c, k);
    FirstClaimDecides(sorted, labels, account, k, i);
    CleanedConcat(ClaimDeclarations(sorted, labels, account), Parsed(annotation));
    PreferenceConcat(Cleaned(ClaimDeclarations(sorted, labels, account)), Cleaned(Parsed(annotation)), k);
  }

  lemma {:induction false} FirstPlace<T>(s: seq<T>, x: T) returns (i: int)
    requires x in s
    ensures 0 <= i < |s| && s[i] == x && x !in s[..i]
  {
    if s[0] == x {
      i := 0;
    } else {
      i := FirstPlace(s[1..], x);
      assert s[..i + 1] == [s[0]] + s[1..][..i];
      i := i + 1;
    }
  }

  // ---- Admission ----

  /** The namespace a request is about, and the account its pod runs as. */
  ghost function ScopeOf(requestNamespace: string, pod: PodIdentity): string {
    if requestNamespace == "" then pod.namespace else requestNamespace
  }

  ghost function RunsAs(pod: PodIdentity): string {
    if pod.serviceAccountName == "" then "default" else pod.serviceAccountName
  }

  ghost predicate Looked(cfg: Config, ns: string) {
    ns != "" && ns != cfg.operatorNamespace && ns !in cfg.exemptNamespaces
  }

  ghost predicate Readable(st: Cluster, ns: string) {
    ListClaims(ns) !in st.failing && ListClusterPolicies !in st.failing && ListTokenPolicies(ns) !in st.failing
    && GetNamespace(ns) !in st.failing
  }

  /** Policies and claims of the namespace, in list order. */
  ghost function Within(st: Cluster, ns: string): (seq<TokenPolicy>, seq<ModelClaim>) {
    (Filter((p: TokenPolicy) => p.namespace == ns, st.tokenPolicies),
     Filter((c: ModelClaim) => c.namespace == ns, st.claims))
  }

  ghost function LabelsOfScope(st: Cluster, ns: string): Labels {
    if ns in st.namespaces then st.namespaces[ns] else map[]
  }

  ghost function PodInput(st: Cluster, ns: string, pod: PodIdentity): ResolveInput {
    ResolveInput(st.clusterPolicies, Within(st, ns).0, ns, LabelsOfScope(st, ns),
                 Identity(Some(pod.labels), RunsAs(pod)))
  }

  /** A nonblank declaration, by a claim of the namespace or the annotation, that the resolution refuses. */
  ghost predicate SomeRefused(st: Cluster, ns: string, pod: PodIdentity, e: Resolved) {
    exists d :: Declares(Within(st, ns).1, pod.labels, RunsAs(pod), pod.models, d)
                && TrimSpace(d.provider) != "" && TrimSpace(d.model) != ""
                && !Permit(e, d.provider, d.model).allowed
  }

  lemma WithinExactly(st: Cluster, ns: string)
    ensures Within(st, ns) == (PoliciesIn(st, ns), ClaimsIn(st, ns))
  {
    FilterAgrees((p: TokenPolicy) => p.namespace == ns, PolicyIn(ns), st.tokenPolicies);
    FilterAgrees((c: ModelClaim) => c.namespace == ns, ClaimIn(ns), st.claims);
  }

  /** The reads and the resolution of an admission request, spelled out. */
  lemma ResolutionByFields(st: Cluster, ns: string, pod: PodIdentity)
    ensures ListClaims(ns) !in st.failing && ResolveEffective(st, ns, WorkloadOf(pod)).Ok? <==>
            Readable(st, ns) && Resolve(PodInput(st, ns, pod)).Ok?
    ensures Readable(st, ns) && Resolve(PodInput(st, ns, pod)).Ok? ==>
              ResolveEffective(st, ns, WorkloadOf(pod)).value == Resolve(PodInput(st, ns, pod)).value
  {
    WithinExactly(st, ns);
    assert WorkloadOf(pod) == Identity(Some(pod.labels), RunsAs(pod));
  }

  lemma RefusedByFields(st: Cluster, ns: string, pod: PodIdentity, e: Resolved)
    ensures SomeRefused(st, ns, pod, e) <==> exists d :: d in RawFor(st, ns, pod) && Refused(Decide(e), d)
  {
    WithinExactly(st, ns);
    forall d ensures d in RawFor(st, ns, pod) <==> Declares(Within(st, ns).1, pod.labels, RunsAs(pod), pod.models, d) {
      DeclaresExactly(ClaimsIn(st, ns), pod.labels, RunsAs(pod), pod.models, d);
    }
  }

  /**
   A pod is rejected exactly if: its scope is looked at, everything can be read, the policies resolve, some
   policy governs it, the resolved mode is Enforce, and some nonblank declaration made for it, by a claim that
   selects it or by its annotation, is refused. In every other case it is admitted.
   */
  lemma RejectedExactly(cfg: Config, st: Cluster, requestNamespace: string, pod: PodIdentity)
    ensures var ns := ScopeOf(requestNamespace, pod);
            Response(cfg, st, requestNamespace, pod).Forbidden? <==>
            && Looked(cfg, ns) && Readable(st, ns) && Resolve(PodInput(st, ns, pod)).Ok?
            && var e := Resolve(PodInput(st, ns, pod)).value;
               e.governed && e.enforcement == Enforce && SomeRefused(st, ns, pod, e)
  {
    var ns := ScopeOf(requestNamespace, pod);
    assert NamespaceOf(requestNamespace, pod) == ns && (Exempt(cfg, ns) <==> !Looked(cfg, ns));
    ResolutionByFields(st, ns, pod);
    if Looked(cfg, ns) && Readable(st, ns) && Resolve(PodInput(st, ns, pod)).Ok? {
      RejectedWhenReached(cfg, st, requestNamespace, pod, Resolve(PodInput(st, ns, pod)).value);
    } else if Response(cfg, st, requestNamespace, pod).Forbidden? {
      RejectionNeedsEnforce(cfg, st, requestNamespace, pod);
    }
  }

  lemma RejectedWhenReached(cfg: Config, st: Cluster, requestNamespace: string, pod: PodIdentity, e: Resolved)
    requires Reaches(cfg, st, NamespaceOf(requestNamespace, pod), pod, e)
    ensures Response(cfg, st, requestNamespace, pod).Forbidden? <==>
            e.governed && e.enforcement == Enforce && SomeRefused(st, NamespaceOf(requestNamespace, pod), pod, e)
  {
    RefusedByFields(st, NamespaceOf(requestNamespace, pod), pod, e);
    if e.governed && e.enforcement == Enforce {
      AdmissionExact(cfg, st, requestNamespace, pod, e);
    } else {
      ReachedResponse(cfg, st, requestNamespace, pod, e);
    }
  }

  /** Outside Audit mode there is no warning; in it, or out of it, an exempt or unreadable scope stays silent. */
  lemma SilentOtherwise(cfg: Config, st: Cluster, requestNamespace: string, pod: PodIdentity)
    ensures var ns := ScopeOf(requestNamespace, pod);
            Response(cfg, st, requestNamespace, pod).warnings != [] <==>
            && Looked(cfg, ns) && Readable(st, ns) && Resolve(PodInput(st, ns, pod)).Ok?
            && var e := Resolve(PodInput(st, ns, pod)).value;
               e.governed && e.enforcement == Audit && SomeRefused(st, ns, pod, e)
  {
    var ns := ScopeOf(requestNamespace, pod);
    assert NamespaceOf(requestNamespace, pod) == ns && (Exempt(cfg, ns) <==> !Looked(cfg, ns));
    ResolutionByFields(st, ns, pod);
    if Looked(cfg, ns) && Readable(st, ns) && Resolve(PodInput(st, ns, pod)).Ok? {
      WarnedWhenReached(cfg, st, requestNamespace, pod, Resolve(PodInput(st, ns, pod)).value);
    }
  }

  lemma WarnedWhenReached(cfg: Config, st: Cluster, requestNamespace: string, pod: PodIdentity, e: Resolved)
    requires Reaches(cfg, st, NamespaceOf(requestNamespace, pod), pod, e)
    ensures Response(cfg, st, requestNamespace, pod).warnings != [] <==>
            e.governed && e.enforcement == Audit && SomeRefused(st, NamespaceOf(requestNamespace, pod), pod, e)
  {
    var raw := RawFor(st, NamespaceOf(requestNamespace, pod), pod);
    RefusedByFields(st, NamespaceOf(requestNamespace, pod), pod, e);
    ReachedResponse(cfg, st, requestNamespace, pod, e);
    SomeRefusal(e, raw);
    EnforcementIsSet(st, NamespaceOf(requestNamespace, pod), WorkloadOf(pod), e);
    WarnsExactly(e, Merge(Cleaned(raw)));
  }

  lemma WarnsExactly(e: Resolved, ds: seq<Declared>)
    requires e.enforcement != EnforcementUnset
    ensures Respond(e, ds).warnings != [] <==> e.governed && e.enforcement == Audit && Refusals(Decide(e), ds) != []
  {
  }

  lemma SomeRefusal(e: Resolved, raw: seq<Declared>)
    ensures Refusals(Decide(e), Merge(Cleaned(raw))) != [] <==> exists d :: d in raw && Refused(Decide(e), d)
  {
    PermitIsFaithful(e);
    MergedRefusals(Decide(e), raw);
  }

  lemma EnforcementIsSet(st: Cluster, ns: string, id: Identity, e: Resolved)
    requires ResolveEffective(st, ns, id) == Ok(e)
    ensures e.enforcement != EnforcementUnset
  {
  }
}
