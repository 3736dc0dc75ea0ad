/** The claim binding preview of the ModelClaim controller, and how it relates to admission. */
module Claims {
  import opened Wrappers
  import opened Sorting
  import opened FirstOccurrences
  import opened Api
  import opened Resolver
  import opened ResolverEngine
  import opened ResolverTheorems
  import opened PermitTheorems
  import opened ClusterState
  import opened PodValidation

  // ---- Identities ----

  /** Labels of the claim's selector that can be turned into a label set; match expressions cannot. */
  function ClaimLabels(w: WorkloadSelector): Option<Labels> {
    match w.podSelector
    case None => None
    case Some(sel) => if sel.matchLabels == map[] then None else Some(sel.matchLabels)
  }

  function ClaimIdentities(sel: Option<WorkloadSelector>): (ids: seq<Identity>)
    ensures ids != []
  {
    match sel
    case None => [NO_IDENTITY]
    case Some(w) =>
      if w.serviceAccounts == [] then [Identity(ClaimLabels(w), "")]
      else seq(|w.serviceAccounts|,
               i requires 0 <= i < |w.serviceAccounts| => Identity(ClaimLabels(w), w.serviceAccounts[i]))
  }

  // ---- Resolving a claim ----

  /** The state a claim is resolved against, with the identity left open. */
  function InputFor(base: ResolveInput, id: Identity): ResolveInput { base.(identity := id) }

  function ResolveAll(base: ResolveInput, ids: seq<Identity>): Result<seq<Resolved>, ResolveError> {
    if ids == [] then Ok([])
    else
      match ResolveAll(base, ids[..|ids| - 1])
      case Err(e) => Err(e)
      case Ok(effs) =>
        match Resolve(InputFor(base, ids[|ids| - 1]))
        case Err(e) => Err(e)
        case Ok(e) => Ok(effs + [e])
  }

  function AllVerdicts(effs: seq<Resolved>): seq<Verdicts> {
    seq(|effs|, i requires 0 <= i < |effs| => Decide(effs[i]))
  }

  predicate EveryoneMay(fs: seq<Verdicts>, m: ModelRequest) {
    forall i :: 0 <= i < |fs| ==> fs[i](m.provider, m.model).allowed
  }

  /** The first nonempty credential among the identities that may use the model. */
  function FirstCredential(fs: seq<Verdicts>, m: ModelRequest): string {
    if fs == [] then ""
    else
      var earlier, d := FirstCredential(fs[..|fs| - 1], m), fs[|fs| - 1](m.provider, m.model);
      if earlier == "" && d.allowed then d.credential else earlier
  }

  /** The first nonempty denier among the identities that may not. */
  function FirstDenier(fs: seq<Verdicts>, m: ModelRequest): string {
    if fs == [] then ""
    else
      var earlier, d := FirstDenier(fs[..|fs| - 1], m), fs[|fs| - 1](m.provider, m.model);
      if earlier == "" && !d.allowed then d.deniedBy else earlier
  }

  function ResolvedRequest(fs: seq<Verdicts>, m: ModelRequest): EffectiveModel {
    var named := FirstCredential(fs, m);
    if !EveryoneMay(fs, m) then EffectiveModel(m.provider, m.model, ActionDeny, "", FirstDenier(fs, m))
    else
      var credential := if named != "" then named else CredentialName(m.credentialRef);
      EffectiveModel(m.provider, m.model, ActionAllow, credential, FirstDenier(fs, m))
  }

  function ResolvedRequests(fs: seq<Verdicts>, models: seq<ModelRequest>): seq<EffectiveModel> {
    seq(|models|, i requires 0 <= i < |models| => ResolvedRequest(fs, models[i]))
  }

  function ResolveClaim(claim: ModelClaim, base: ResolveInput): Result<seq<EffectiveModel>, ResolveError> {
    match ResolveAll(base, ClaimIdentities(claim.selector))
    case Err(e) => Err(e)
    case Ok(effs) => Ok(ResolvedRequests(AllVerdicts(effs), claim.models))
  }

  method ResolveIdentities(base: ResolveInput, ids: seq<Identity>) returns (r: Result<seq<Resolved>, ResolveError>)
    ensures r == ResolveAll(base, ids)
  {
    var effs: seq<Resolved> := [];
    for i := 0 to |ids|
      invariant ResolveAll(base, ids[..i]) == Ok(effs)
    {
      assert ids[..i + 1][..i] == ids[..i];
      var e := Effective.Resolve(InputFor(base, ids[i]));
      if e.Err? {
        ErrorSticks(base, ids, i + 1);
        return Err(e.error);
      }
      effs := effs + [e.value.View()];
    }
    assert ids[..|ids|] == ids;
    return Ok(effs);
  }

  lemma {:induction false} ErrorSticks(base: ResolveInput, ids: seq<Identity>, k: nat)
    requires k <= |ids| && ResolveAll(base, ids[..k]).Err?
    ensures ResolveAll(base, ids) == ResolveAll(base, ids[..k])
  {
    if k == |ids| {
      assert ids[..k] == ids;
    } else {
      assert ids[..|ids| - 1][..k] == ids[..k];
      ErrorSticks(base, ids[..|ids| - 1], k);
    }
  }

  /** The inner loop over the identities for one requested model. */
  method ResolveOne(fs: seq<Verdicts>, m: ModelRequest) returns (r: EffectiveModel)
    ensures r == ResolvedRequest(fs, m)
  {
    var may, credential, source := true, "", "";
    for i := 0 to |fs|
      invariant may == EveryoneMay(fs[..i], m)
      invariant credential == FirstCredential(fs[..i], m)
      invariant source == FirstDenier(fs[..i], m)
    {
      assert fs[..i + 1][..i] == fs[..i];
      var d := fs[i](m.provider, m.model);
      if !d.allowed {
        may := false;
        if source == "" {
          source := d.deniedBy;
        }
        continue;
      }
      if credential == "" && d.credential != "" {
        credential := d.credential;
      }
    }
    assert fs[..|fs|] == fs;
    var action := ActionAllow;
    if !may {
      action, credential := ActionDeny, "";
    } else if credential == "" && m.credentialRef.Some? {
      credential := m.credentialRef.value;
    }
    return EffectiveModel(m.provider, m.model, action, credential, source);
  }

  datatype Phase = Bound | Denied

  datatype ClaimStatus = ClaimStatus(phase: Phase, resolved: seq<EffectiveModel>, boundCredentials: seq<string>)

  /** distinctAllowedCredentials, specified: the nonempty credentials of Allow entries, each once. */
  function AllowedCredentials(models: seq<EffectiveModel>): seq<string> {
    if models == [] then []
    else
      var m := models[|models| - 1];
      AllowedCredentials(models[..|models| - 1])
        + (if m.action != ActionAllow || m.credential == "" then [] else [m.credential])
  }

  method DistinctAllowedCredentials(models: seq<EffectiveModel>) returns (out: seq<string>)
    ensures out == Firsts(Itself, AllowedCredentials(models))
  {
    out := [];
    var seen: set<string> := {};
    for i := 0 to |models|
      invariant out == Firsts(Itself, AllowedCredentials(models[..i]))
      invariant forall x :: x in seen <==> x in AllowedCredentials(models[..i])
    {
      assert models[..i + 1][..i] == models[..i];
      ghost var before := AllowedCredentials(models[..i]);
      assert before + [] == before;
      var m := models[i];
      if m.action != ActionAllow || m.credential == "" {
        continue;
      }
      NextName(before, m.credential, seen);
      if m.credential !in seen {
        seen := seen + {m.credential};
        out := out + [m.credential];
      }
    }
    assert models[..|models|] == models;
  }

  lemma NextName(before: seq<string>, name: string, seen: set<string>)
    requires forall x :: x in seen <==> x in before
    ensures Firsts(Itself, before + [name]) ==
            if name in seen then Firsts(Itself, before) else Firsts(Itself, before) + [name]
  {
    FirstsAppend(Itself, before, name);
  }

  lemma {:induction false} AllowedCredentialsExactly(models: seq<EffectiveModel>, x: string)
    ensures x in AllowedCredentials(models) <==>
            exists m :: m in models && m.action == ActionAllow && x == m.credential != ""
  {
    if models == [] {
    } else {
      var n := |models| - 1;
      AllowedCredentialsExactly(models[..n], x);
      assert models == models[..n] + [models[n]];
    }
  }

  /** BoundCredentials holds no name twice, and exactly the credentials of Allow entries. */
  lemma BoundCredentialsExactly(models: seq<EffectiveModel>, x: string)
    ensures NoDuplicates(Firsts(Itself, AllowedCredentials(models)))
    ensures x in Firsts(Itself, AllowedCredentials(models)) <==>
            exists m :: m in models && m.action == ActionAllow && x == m.credential != ""
  {
    var names := AllowedCredentials(models);
    AllowedCredentialsExactly(models, x);
    FirstsDistinct(Itself, names);
    if x in names {
      var i :| 0 <= i < |names| && names[i] == x;
      var f := FirstsCover(Itself, names, i);
    }
    if x in Firsts(Itself, names) {
      var at := FirstsOrigin(Itself, names);
      var i :| 0 <= i < |at| && Firsts(Itself, names)[i] == x;
      assert names[at[i]] == x;
    }
  }

  /** The outer loop over the requested models. */
  method ResolveModels(fs: seq<Verdicts>, models: seq<ModelRequest>) returns (out: seq<EffectiveModel>)
    ensures out == ResolvedRequests(fs, models)
  {
    out := [];
    for i := 0 to |models|
      invariant |out| == i
      invariant forall j :: 0 <= j < i ==> out[j] == ResolvedRequest(fs, models[j])
    {
      var m := ResolveOne(fs, models[i]);
      out := out + [m];
    }
  }

  method CountDenied(models: seq<EffectiveModel>) returns (denied: nat)
    ensures denied == 0 <==> forall i :: 0 <= i < |models| ==> models[i].action != ActionDeny
  {
    denied := 0;
    for i := 0 to |models|
      invariant denied == 0 <==> forall j :: 0 <= j < i ==> models[j].action != ActionDeny
    {
      if models[i].action == ActionDeny {
        denied := denied + 1;
      }
    }
  }

  /** Reconcile of a claim once its reads succeed; an error leaves the phase as it was. */
  method ReconcileClaim(claim: ModelClaim, base: ResolveInput) returns (r: Result<ClaimStatus, ResolveError>)
    ensures match r
            case Err(e) => ResolveClaim(claim, base) == Err(e)
            case Ok(s) =>
              && ResolveClaim(claim, base) == Ok(s.resolved)
              && (s.phase == Bound <==> forall i :: 0 <= i < |s.resolved| ==> s.resolved[i].action != ActionDeny)
              && s.boundCredentials == Firsts(Itself, AllowedCredentials(s.resolved))
  {
    var resolved := ResolveIdentities(base, ClaimIdentities(claim.selector));
    if resolved.Err? {
      return Err(resolved.error);
    }
    var out := ResolveModels(AllVerdicts(resolved.value), claim.models);
    var denied := CountDenied(out);
    var credentials := DistinctAllowedCredentials(out);
    return Ok(ClaimStatus(if denied > 0 then Denied else Bound, out, credentials));
  }

  // ---- Binding is conservative ----

  lemma ResolveAllLast(base: ResolveInput, ids: seq<Identity>) returns (before: seq<Resolved>, last: Resolved)
    requires ids != [] && ResolveAll(base, ids).Ok?
    ensures ResolveAll(base, ids[..|ids| - 1]) == Ok(before) && Resolves(base, ids[|ids| - 1], last)
    ensures ResolveAll(base, ids) == Ok(before + [last])
  {
    before := ResolveAll(base, ids[..|ids| - 1]).value;
    last := Resolve(InputFor(base, ids[|ids| - 1])).value;
  }

  lemma {:induction false} ResolveAllEach(base: ResolveInput, ids: seq<Identity>)
    requires ResolveAll(base, ids).Ok?
    ensures |ResolveAll(base, ids).value| == |ids|
    ensures forall i :: 0 <= i < |ids| ==> Resolves(base, ids[i], ResolveAll(base, ids).value[i])
  {
    if ids == [] {
    } else {
      var n := |ids| - 1;
      var before, last := ResolveAllLast(base, ids);
      ResolveAllEach(base, ids[..n]);
      forall i | 0 <= i < |ids| ensures Resolves(base, ids[i], (before + [last])[i]) {
        assert i < n ==> Resolves(base, ids[..n][i], before[i]);
      }
    }
  }

  ghost predicate Resolves(base: ResolveInput, id: Identity, e: Resolved) { Resolve(InputFor(base, id)) == Ok(e) }

  /** The identity resolves, and may use the model. */
  ghost predicate May(base: ResolveInput, id: Identity, m: ModelRequest) {
    exists e :: Resolves(base, id, e) && Decide(e)(m.provider, m.model).allowed
  }

  ghost predicate AllIdentitiesMay(base: ResolveInput, ids: seq<Identity>, m: ModelRequest) {
    forall i :: 0 <= i < |ids| ==> May(base, ids[i], m)
  }

  lemma EveryoneMayExactly(base: ResolveInput, ids: seq<Identity>, effs: seq<Resolved>, m: ModelRequest)
    requires |effs| == |ids| && forall i :: 0 <= i < |ids| ==> Resolves(base, ids[i], effs[i])
    ensures EveryoneMay(AllVerdicts(effs), m) <==> AllIdentitiesMay(base, ids, m)
  {
    forall i | 0 <= i < |ids|
      ensures AllVerdicts(effs)[i](m.provider, m.model).allowed <==> May(base, ids[i], m)
    {
      assert Resolves(base, ids[i], effs[i]);
      assert AllVerdicts(effs)[i] == Decide(effs[i]);
    }
  }

  /** A request is allowed in the preview iff every identity of the claim may use the model. */
  lemma ClaimVerdictExact(claim: ModelClaim, base: ResolveInput, k: nat)
    requires ResolveClaim(claim, base).Ok? && k < |claim.models|
    ensures ResolveClaim(claim, base).value[k].action == ActionAllow <==>
            AllIdentitiesMay(base, ClaimIdentities(claim.selector), claim.models[k])
  {
    var ids := ClaimIdentities(claim.selector);
    ResolveAllEach(base, ids);
    EveryoneMayExactly(base, ids, ResolveAll(base, ids).value, claim.models[k]);
  }

  /** i is the first identity whose verdict names a credential while allowing, or a denier while refusing. */
  ghost predicate FirstNaming(fs: seq<Verdicts>, m: ModelRequest, mayUse: bool, i: int) {
    && 0 <= i < |fs| && Names(fs[i], m, mayUse) != ""
    && forall j :: 0 <= j < i ==> Names(fs[j], m, mayUse) == ""
  }

  function Names(f: Verdicts, m: ModelRequest, mayUse: bool): string {
    var d := f(m.provider, m.model);
    if d.allowed != mayUse then "" else if mayUse then d.credential else d.deniedBy
  }

  lemma {:induction false} FirstNamingSearch(fs: seq<Verdicts>, m: ModelRequest, i: int)
    ensures FirstNaming(fs, m, true, i) ==> FirstCredential(fs, m) == Names(fs[i], m, true)
    ensures FirstNaming(fs, m, false, i) ==> FirstDenier(fs, m) == Names(fs[i], m, false)
    ensures (forall j :: 0 <= j < |fs| ==> Names(fs[j], m, true) == "") ==> FirstCredential(fs, m) == ""
    ensures (forall j :: 0 <= j < |fs| ==> Names(fs[j], m, false) == "") ==> FirstDenier(fs, m) == ""
  {
    if fs == [] {
    } else {
      FirstNamingSearch(fs[..|fs| - 1], m, i);
    }
  }

  /**
   An allowed request carries the credential of the first identity for which the hierarchy names one, else
   the claim's own preference; a denied one carries none, and the first denier found.
   */
  lemma ResolvedRequestEvidence(fs: seq<Verdicts>, m: ModelRequest, i: int)
    ensures var r := ResolvedRequest(fs, m);
            && r.provider == m.provider && r.model == m.model
            && (r.action == ActionAllow && FirstNaming(fs, m, true, i) ==>
                r.credential == fs[i](m.provider, m.model).credential)
            && (r.action == ActionAllow
                && (forall j :: 0 <= j < |fs| ==> fs[j](m.provider, m.model).credential == "") ==>
                  r.credential == CredentialName(m.credentialRef))
            && (r.action == ActionDeny ==> r.credential == "")
            && (r.action == ActionDeny && FirstNaming(fs, m, false, i) ==>
                r.source == fs[i](m.provider, m.model).deniedBy)
  {
    FirstNamingSearch(fs, m, i);
  }

  /** The claim is Bound iff every requested model is permitted for every identity. */
  lemma BoundExactly(claim: ModelClaim, base: ResolveInput)
    requires ResolveClaim(claim, base).Ok?
    ensures (forall i :: 0 <= i < |ResolveClaim(claim, base).value| ==>
               ResolveClaim(claim, base).value[i].action != ActionDeny)
            <==> forall k :: 0 <= k < |claim.models| ==>
                   AllIdentitiesMay(base, ClaimIdentities(claim.selector), claim.models[k])
  {
    var out := ResolveClaim(claim, base).value;
    assert |out| == |claim.models|;
    forall k | 0 <= k < |out|
      ensures out[k].action != ActionDeny <==> AllIdentitiesMay(base, ClaimIdentities(claim.selector), claim.models[k])
    {
      ClaimVerdictExact(claim, base, k);
    }
  }

  function WithAccount(claim: ModelClaim, at: nat, account: string): ModelClaim
    requires claim.selector.Some? && at <= |claim.selector.value.serviceAccounts|
  {
    var w := claim.selector.value;
    claim.(selector := Some(w.(serviceAccounts := w.serviceAccounts[..at] + [account] + w.serviceAccounts[at..])))
  }

  lemma MoreIdentities(base: ResolveInput, ids: seq<Identity>, more: seq<Identity>, at: nat, m: ModelRequest)
    requires |more| == |ids| + 1 && forall i :: 0 <= i < |ids| ==> ids[i] == more[if i < at then i else i + 1]
    requires AllIdentitiesMay(base, more, m)
    ensures AllIdentitiesMay(base, ids, m)
  {
  }

  /** Adding an account to a nonempty account list never turns a Deny into an Allow. */
  lemma MoreAccountsNeverAllow(claim: ModelClaim, base: ResolveInput, account: string, at: nat, k: nat)
    requires claim.selector.Some? && claim.selector.value.serviceAccounts != []
             && at <= |claim.selector.value.serviceAccounts|
    requires ResolveClaim(claim, base).Ok? && k < |claim.models|
    requires ResolveClaim(claim, base).value[k].action == ActionDeny
    requires ResolveClaim(WithAccount(claim, at, account), base).Ok?
    ensures ResolveClaim(WithAccount(claim, at, account), base).value[k].action == ActionDeny
  {
    var wider := WithAccount(claim, at, account);
    ClaimVerdictExact(claim, base, k);
    ClaimVerdictExact(wider, base, k);
    var ids, more := ClaimIdentities(claim.selector), ClaimIdentities(wider.selector);
    IdentitiesWithAccount(claim, at, account);
    if AllIdentitiesMay(base, more, claim.models[k]) {
      MoreIdentities(base, ids, more, at, claim.models[k]);
    }
  }

  lemma IdentitiesWithAccount(claim: ModelClaim, at: nat, account: string)
    requires claim.selector.Some? && claim.selector.value.serviceAccounts != []
             && at <= |claim.selector.value.serviceAccounts|
    ensures var ids, more := ClaimIdentities(claim.selector), ClaimIdentities(WithAccount(claim, at, account).selector);
            |more| == |ids| + 1 && forall i :: 0 <= i < |ids| ==> ids[i] == more[if i < at then i else i + 1]
  {
    var ids, more := ClaimIdentities(claim.selector), ClaimIdentities(WithAccount(claim, at, account).selector);
    var before, after :=
      claim.selector.value.serviceAccounts, WithAccount(claim, at, account).selector.value.serviceAccounts;
    var w, w' := claim.selector.value, WithAccount(claim, at, account).selector.value;
    assert ClaimLabels(w) == ClaimLabels(w') && |after| == |before| + 1;
    assert forall j :: 0 <= j < |after| ==> more[j] == Identity(ClaimLabels(w'), after[j]);
    forall i | 0 <= i < |ids| ensures ids[i] == more[if i < at then i else i + 1] {
      assert ids[i] == Identity(ClaimLabels(w), before[i]);
      assert before[i] == after[if i < at then i else i + 1];
    }
  }

  // ---- The preview and admission ----

  lemma {:induction false} SameFaults(f: TokenPolicy -> Option<ResolveError>, g: TokenPolicy -> Option<ResolveError>,
                                      s: seq<TokenPolicy>)
    requires forall x :: f(x) == g(x)
    ensures FirstFault(f, s) == FirstFault(g, s)
  {
    if s == [] {
    } else {
      SameFaults(f, g, s[..|s| - 1]);
    }
  }

  /** Absent labels and an empty label set resolve alike once an account is known. */
  lemma EmptyLabelsResolveAlike(input: ResolveInput, account: string)
    requires account != ""
    ensures Resolve(input.(identity := Identity(None, account)))
            == Resolve(input.(identity := Identity(Some(map[]), account)))
  {
    var a, b := Identity(None, account), Identity(Some(map[]), account);
    assert forall p: TokenPolicy :: WorkloadVerdict(a, p) == WorkloadVerdict(b, p);
    FilterAgrees(WorkloadApplies(a), WorkloadApplies(b), input.namespacePolicies);
    SameFaults(WorkloadFault(a), WorkloadFault(b), input.namespacePolicies);
  }

  /** The labels every pod of the claim must carry, as far as the selector lists them. */
  function ListedLabels(sel: Option<WorkloadSelector>): Labels {
    if sel.Some? && sel.value.podSelector.Some? then sel.value.podSelector.value.matchLabels else map[]
  }

  /**
   A model of a Bound claim is permitted at admission for every pod whose labels equal the claim's
   matchLabels and whose account the claim lists.
   */
  lemma BoundModelIsAdmitted(claim: ModelClaim, st: Cluster, namespace: string, base: ResolveInput, pod: PodIdentity,
                             k: nat)
    requires GatherInput(st, namespace, NO_IDENTITY) == Ok(base)
    requires ResolveClaim(claim, base).Ok? && k < |claim.models|
             && ResolveClaim(claim, base).value[k].action == ActionAllow
    requires claim.selector.Some? && AccountOf(pod) in claim.selector.value.serviceAccounts
    requires pod.labels == ListedLabels(claim.selector)
    ensures ResolveEffective(st, namespace, WorkloadOf(pod)).Ok?
    ensures Permit(ResolveEffective(st, namespace, WorkloadOf(pod)).value, claim.models[k].provider,
                   claim.models[k].model).allowed
  {
    var id := ListedIdentity(claim, base, pod);
    ClaimVerdictExact(claim, base, k);
    var i :| 0 <= i < |ClaimIdentities(claim.selector)| && ClaimIdentities(claim.selector)[i] == id;
    assert May(base, id, claim.models[k]);
    GatherWith(st, namespace, base, WorkloadOf(pod));
  }

  lemma ListedIdentity(claim: ModelClaim, base: ResolveInput, pod: PodIdentity) returns (id: Identity)
    requires claim.selector.Some? && AccountOf(pod) in claim.selector.value.serviceAccounts
    requires pod.labels == ListedLabels(claim.selector)
    ensures id in ClaimIdentities(claim.selector)
    ensures Resolve(InputFor(base, id)) == Resolve(InputFor(base, WorkloadOf(pod)))
  {
    var accounts := claim.selector.value.serviceAccounts;
    var i :| 0 <= i < |accounts| && accounts[i] == AccountOf(pod);
    id := Identity(ClaimLabels(claim.selector.value), AccountOf(pod));
    assert ClaimIdentities(claim.selector)[i] == id;
    EmptyLabelsResolveAlike(base, AccountOf(pod));
  }

  lemma GatherWith(st: Cluster, namespace: string, base: ResolveInput, id: Identity)
    requires GatherInput(st, namespace, NO_IDENTITY) == Ok(base)
    ensures GatherInput(st, namespace, id) == Ok(InputFor(base, id))
  {
  }

  /**
   For every pod whatever, a model the claim's preview allows is permitted at admission exactly when the
   workload policies that match the pod admit it: the broader tiers are settled by the preview, and labels,
   match expressions or accounts it did not know of matter through those policies alone.
   */
  lemma PreviewedModelExactly(claim: ModelClaim, st: Cluster, namespace: string, base: ResolveInput, pod: PodIdentity,
                              k: nat, e: Resolved)
    requires GatherInput(st, namespace, NO_IDENTITY) == Ok(base)
    requires ResolveClaim(claim, base).Ok? && k < |claim.models|
             && ResolveClaim(claim, base).value[k].action == ActionAllow
    requires ResolveEffective(st, namespace, WorkloadOf(pod)) == Ok(e)
    ensures Permit(e, claim.models[k].provider, claim.models[k].model).allowed <==>
            Admits(e.wl.rules, claim.models[k].provider, claim.models[k].model)
  {
    var m, id := claim.models[k], ClaimIdentities(claim.selector)[0];
    ClaimVerdictExact(claim, base, k);
    assert May(base, id, m);
    var known :| Resolves(base, id, known) && Decide(known)(m.provider, m.model).allowed;
    WorkloadTierDecides(InputFor(base, id), known, m.provider, m.model);
    GatherWith(st, namespace, base, WorkloadOf(pod));
    WorkloadTierDecides(InputFor(base, WorkloadOf(pod)), e, m.provider, m.model);
  }
}
