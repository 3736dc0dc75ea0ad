/** What the previews are about, over the fields of claims, policies and the cluster. */
module PreviewTheorems {
  import opened Wrappers
  import opened Sorting
  import opened Api
  import opened Resolver
  import opened ResolverTheorems
  import opened DecisionTheorems
  import opened ClusterState
  import opened AdmissionTheorems
  import opened Claims
  import opened Previews

  // ---- Whom a claim is previewed for ----

  /** The accounts listed, or the unnamed one. */
  ghost function PreviewAccounts(claim: ModelClaim): seq<string> {
    if claim.selector.Some?
      && |claim.selector.value.serviceAccounts| > 0 then claim.selector.value.serviceAccounts else [""]
  }

  /** The labels listed, if any; expressions do not count. */
  ghost function PreviewPodLabels(claim: ModelClaim): Option<Labels> {
    if claim.selector.Some? && claim.selector.value.podSelector.Some?
       && |claim.selector.value.podSelector.value.matchLabels| > 0
    then Some(claim.selector.value.podSelector.value.matchLabels) else None
  }

  lemma IdentitiesExactly(claim: ModelClaim)
    ensures |ClaimIdentities(claim.selector)| == |PreviewAccounts(claim)|
    ensures forall i :: 0 <= i < |PreviewAccounts(claim)| ==>
              ClaimIdentities(claim.selector)[i] == Identity(PreviewPodLabels(claim), PreviewAccounts(claim)[i])
  {
    if claim.selector.Some? {
      assert ClaimLabels(claim.selector.value) == PreviewPodLabels(claim) by {
        if claim.selector.value.podSelector.Some? {
          var m := claim.selector.value.podSelector.value.matchLabels;
          assert |m| > 0 <==> m != map[];
        }
      }
    }
  }

  ghost predicate AccountMay(claim: ModelClaim, base: ResolveInput, account: string, m: ModelRequest) {
    var input := base.(identity := Identity(PreviewPodLabels(claim), account));
    Resolve(input).Ok? && Permit(Resolve(input).value, m.provider, m.model).allowed
  }

  /**
   A request is allowed exactly if every listed account, or the unnamed one, may use the model under the listed
   labels; the claim fails to resolve exactly if the policies do for one of them.
   */
  lemma PreviewedExactly(claim: ModelClaim, base: ResolveInput, k: nat)
    requires k < |claim.models|
    ensures ResolveClaim(claim, base).Ok? ==>
              (ResolveClaim(claim, base).value[k].action == ActionAllow <==>
               forall a :: a in PreviewAccounts(claim) ==> AccountMay(claim, base, a, claim.models[k]))
    ensures ResolveClaim(claim, base).Err? <==>
            exists a ::
              a in PreviewAccounts(claim) && Resolve(base.(identity := Identity(PreviewPodLabels(claim), a))).Err?
  {
    var ids := ClaimIdentities(claim.selector);
    IdentitiesExactly(claim);
    ResolveAllFails(base, ids);
    forall i | 0 <= i < |ids| ensures InputFor(base, ids[i])
      == base.(identity := Identity(PreviewPodLabels(claim), PreviewAccounts(claim)[i])) {
    }
    if ResolveClaim(claim, base).Ok? {
      ClaimVerdictExact(claim, base, k);
      forall i | 0 <= i < |ids|
        ensures May(base, ids[i], claim.models[k]) <==>
                AccountMay(claim, base, PreviewAccounts(claim)[i], claim.models[k])
      {
        MayExactly(base, ids[i], claim.models[k]);
      }
    }
  }

  lemma MayExactly(base: ResolveInput, id: Identity, m: ModelRequest)
    ensures May(base, id, m) <==>
            Resolve(base.(identity := id)).Ok?
              && Permit(Resolve(base.(identity := id)).value, m.provider, m.model).allowed
  {
    if Resolve(base.(identity := id)).Ok? {
      assert Resolves(base, id, Resolve(base.(identity := id)).value);
    }
  }

  lemma {:induction false} ResolveAllFails(base: ResolveInput, ids: seq<Identity>)
    ensures ResolveAll(base, ids).Err? <==> exists i :: 0 <= i < |ids| && Resolve(InputFor(base, ids[i])).Err?
  {
    if ids == [] {
    } else {
      ResolveAllFails(base, ids[..|ids| - 1]);
      assert forall i :: 0 <= i < |ids| - 1 ==> ids[..|ids| - 1][i] == ids[i];
    }
  }

  // ---- Completeness of the warnings ----

  /** Where no policy has rules everything is permitted, so skipping the preview there loses no warning. */
  lemma UngovernedPermits(input: ResolveInput, e: Resolved, provider: string, model: string)
    requires Resolve(input) == Ok(e) && !e.modelGoverned
    ensures Permit(e, provider, model).allowed
  {
    PermitByRules(e, provider, model);
    assert e.cluster.rules == [] && e.ns.rules == [] && e.wl.rules == [];
  }

  ghost predicate ListsReadable(st: Cluster, ns: string) {
    ListClusterPolicies !in st.failing && ListTokenPolicies(ns) !in st.failing
  }

  /** The scope of no workload in particular; unreadable labels are taken for none. */
  ghost function BareInput(st: Cluster, ns: string, tps: seq<TokenPolicy>): ResolveInput {
    ResolveInput(st.clusterPolicies, tps, ns,
                 if GetNamespace(ns) in st.failing then map[] else LabelsOfScope(st, ns), Identity(None, ""))
  }

  ghost predicate RefusedBare(st: Cluster, ns: string, tps: seq<TokenPolicy>, provider: string, model: string) {
    && ListsReadable(st, ns) && Resolve(BareInput(st, ns, tps)).Ok?
    && !Permit(Resolve(BareInput(st, ns, tps)).value, provider, model).allowed
  }

  lemma PreviewRefuses(st: Cluster, ns: string, tps: seq<TokenPolicy>, provider: string, model: string)
    ensures (Preview(st, ns, tps).Some? && !Permit(Preview(st, ns, tps).value, provider, model).allowed) <==>
            RefusedBare(st, ns, tps, provider, model)
  {
    var input := BaseInput(st.clusterPolicies, tps, ns, PreviewLabels(st, ns));
    assert input == BareInput(st, ns, tps);
    if Resolve(input).Ok? && !Resolve(input).value.modelGoverned {
      UngovernedPermits(input, Resolve(input).value, provider, model);
    }
  }

  /**
   A requested model is flagged exactly if the lists can be read, the cluster and default policies of the
   namespace resolve, and they refuse it.
   */
  lemma ModelFlaggedExactly(st: Cluster, claim: ModelClaim, m: ModelRequest)
    ensures WillNotBind(st, claim.namespace, m) <==>
            RefusedBare(st, claim.namespace, Within(st, claim.namespace).0, m.provider, m.model)
  {
    WithinExactly(st, claim.namespace);
    PreviewRefuses(st, claim.namespace, PoliciesIn(st, claim.namespace), m.provider, m.model);
  }

  /** The namespace's policies of other names. */
  ghost function Siblings(st: Cluster, tp: TokenPolicy): seq<TokenPolicy> {
    Filter((p: TokenPolicy) => p.name != tp.name, Within(st, tp.namespace).0)
  }

  /** A rule is flagged exactly if it does not deny and the policy's siblings, so read, refuse what it names. */
  lemma RuleFlaggedExactly(st: Cluster, tp: TokenPolicy, m: ModelPermission)
    ensures (Preview(st, tp.namespace, Rest(st, tp)).Some?
             && HasNoEffect(Preview(st, tp.namespace, Rest(st, tp)).value, m)) <==>
            m.action != ActionDeny && RefusedBare(st, tp.namespace, Siblings(st, tp), m.provider, m.model)
  {
    WithinExactly(st, tp.namespace);
    FilterAgrees((p: TokenPolicy) => p.name != tp.name, NamedOtherwise(tp.name), PoliciesIn(st, tp.namespace));
    PreviewRefuses(st, tp.namespace, Rest(st, tp), m.provider, m.model);
  }
}
