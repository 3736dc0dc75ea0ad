# token-control verification

token-control decides which LLM provider/model combinations a Kubernetes workload may use, which
credential it is given, and under what quota. It has no request path: everything it does is a decision
computed from cluster state. This project models those decisions in Dafny and proves what they guarantee.

- **Resolver.** `Resolver` says what the effective policy is, per field, as searches over the ordered
  policies that apply; `ResolverEngine` is the program's mutable `Effective` and its loops, proved to
  compute the same. `ResolverTheorems` and `PermitTheorems` hold the consequences.
- **Admission.** `Declarations` parses and merges what is declared for a pod, `PodValidation` is the
  validating webhook, `PodInjection` and `PodMutation` the mutating one (as a value and as an object
  changed in place), `InjectionTheorems` and `DeliveryTheorems` what the pair guarantees.
- **Replication.** `Replication` is the credential reconciler over a Secret store in which every API call
  can succeed, be refused, or take effect and still report an error. `ReplicationRuns` breaks a pass into
  its calls and interleaves it with an arbitrary environment. `BindingTheorems` joins replication and
  injection. `Capacity` is the int64 rollup in the same controller.
- **By fields.** `SelectionTheorems`, `DecisionTheorems`, `AdmissionTheorems`, `MutationTheorems`,
  `ReplicationTheorems` and `PreviewTheorems` state what each operation decides over the objects' own fields,
  independently of the functions above; `GlobTheorems` and `StringTheorems` do so for patterns and strings.
- **Previews.** `Claims` is the claim controller, `Previews` the early warnings of two webhooks.
  `Counterexamples` holds the hierarchies on which a promise fails.

`Strings`, `Sorting`, `Glob`, `FirstOccurrences`, `Quotas`, `Api` and `ClusterState` carry what these
share. `dafny verify dfyconfig.toml` checks everything.

## Where the code and its documentation part

- The API documents that the highest priority wins for overlapping policies
  (`api/v1alpha1/tokenpolicy_types.go:34-35`). For enforcement and gateway it does; a tier's credential
  comes from the lowest priority with a matching Allow (`CredentialFromLowestPriority`), as a concrete
  hierarchy shows (`LowerPrioritySupplies`), so the documented rule holds exactly when those policies share
  one priority (`HighestPriorityWinsExactly`).
- "Narrow, never widen" holds between tiers (`NarrowNeverWiden`). Within a tier, policies pool their Allow
  rules (`OneMoreRule`), so the warning that an Allow rule "has no effect" can be wrong on a
  namespace-default policy (`FlaggedDefaultRuleGrants`) and on a glob (`FlaggedGlobGrants`). What a rule
  grants in either scope is exact (`DefaultRuleGrantsExactly`, `ScopedRuleGrantsExactly`).
- A claim's preview does not cover workload policies its identities do not match
  (`BindingWithoutAccountsIsNoPromise`); for every pod those alone decide (`PreviewedModelExactly`).
- A TokenPolicy "may only narrow what it inherits" (`docs/DESIGN.md:69`) does not extend to enforcement, which
  `docs/DESIGN.md:102` and `api/v1alpha1/tokenpolicy_types.go:29` document as overridden: a workload policy
  that sets Disabled lets in a pod its namespace default rejects (`DisabledWorkloadIsAdmitted`). The default's
  rejection stands exactly as `RejectionStandsExactly` says.
- "Most specific Allow that names a credentialRef wins" (`docs/DESIGN.md:103`): an Allow without a credential
  in front of it makes its tier be passed over (`LaterNamingRuleIsPassedOver`); the rule holds exactly when
  there is none (`MostSpecificNamingAllowExactly`).
- `injectCredential` does not always report a change it made (`UnreportedVolume`, `ReportIsChangeExactly`).
- Existing names are respected, so a credential that may be bound need not reach a container
  (`SharedNameIsNotServed`), and one reported as bound need not be behind the mount (`BoundToForeignVolume`).
  Both are exact (`CarriesExactly`, `RefersToCopyExactly`). A second run replaces the list of bound
  credentials (`ReinvocationForgets`, `ReinvocationLists`).
- Deny rules that name a credential count as binding it
  (`internal/controller/modelcredential_controller.go:228-235`, against the comment at 181-182):
  `DenyRuleCounts`, `CountsAllowRulesExactly`.
- Replicas in de-authorized namespaces are pruned (`docs/DESIGN.md:142`) only if the source Secret and key
  resolve (`MissingSourceKeepsStaleCopy`, `PrunesExactly`), and pruning can delete the source itself
  (`PruningDeletesSource`, `SourceSurvivesExactly`).
- A replica is not written over a Secret another controller owns (`ForeignSecretStays`,
  `PassStabilisesExactly`).
- Allocation sums wrap at int64, so the Oversubscribed verdict can be false (`OverflowHidesDemand`); when it
  is the true one is exact (`OversubscribedIsTrueExactly`), as is when availability and allocation add up to
  the capacity (`ConservationFails`, `ConservationExactly`).

The "iff" of `PassStabilisesExactly` and `GoodCopyExactly` names other controllers alone. The API server also
refuses to change the type of an existing Secret; in the model that refusal is a failing call, which the
first excludes and the second takes into account.

## Model

| member | source | states |
|---|---|---|
| `ResolverEngine.Effective.Resolve` | internal/policy/resolver.go:127-220 | The loops, in-place updates, early error returns and arbitrary-order draining of the source set compute, field by field, the per-field searches of `Resolver.Resolve`, or the same first error |
| `ResolverEngine.Effective.SelectClusterPolicies` | internal/policy/resolver.go:131-145 | Keeps exactly the policies whose selector matches, in list order, or reports the first malformed one |
| `ResolverEngine.Effective.SelectPolicies` | internal/policy/resolver.go:175-196 | Splits the namespace's policies into defaults and those matching the identity; workload selectors are not looked at without an identity |
| `ResolverEngine.Effective.ApplyClusterPolicy` | internal/policy/resolver.go:147-169 | One cluster policy extends the rules, the scalars and the source set as one more layer of the chain |
| `ResolverEngine.Effective.ApplyNamespaceTier` | internal/policy/resolver.go:222-240 | One TokenPolicy extends only its own tier, and the scalars and source set as one more layer of the chain |
| `ResolverEngine.Effective.ResolveForPolicy` | internal/policy/resolver.go:246-290 | Resolving the base and folding the target in afterwards, with appendUnique and a second sort, yields the assembled chain with the target as its workload tier |
| `ResolverEngine.AppendUnique` | internal/policy/resolver.go:292-299 | Appends the value unless it is already there |
| `ResolverEngine.Effective.EffectiveModels` | internal/policy/resolver.go:344-383 | The seen-map and order-slice loops produce one entry per lower-cased Allow key, in first-occurrence order |
| `ResolverTheorems.ResolveForgetsOrder` | internal/policy/resolver.go:127-220 | With distinct names, permuting either policy list changes neither whether Resolve fails nor any field of its result |
| `ResolverTheorems.DefaultTargetAgrees` | internal/policy/resolver.go:246-267 | For a namespace-default target in the list, ResolveForPolicy equals Resolve without an identity, errors included |
| `ResolverTheorems.WorkloadTargetAgrees` | internal/policy/resolver.go:269-290 | For a workload target, ResolveForPolicy equals the live Resolve of any identity that matches the target and no other workload policy, in every field |
| `ResolverTheorems.TargetAsGiven` | internal/policy/resolver.go:246-290 | Whether, and in which version, the list holds the target makes no difference to ResolveForPolicy |
| `ResolverTheorems.ResolvedQuotaIsGreatestLowerBound` | internal/policy/resolver.go:153-156 | The resolved quota is below every applicable policy's quota, above every common lower bound, and unset iff no applicable policy sets one |
| `ResolverTheorems.StatusQuotaBoundsPods` | internal/controller/tokenpolicy_controller.go:64-73 | Every pod a TokenPolicy selects has a quota at or below that policy's status quota, whatever else matches the pod |
| `ResolverTheorems.ScalarsComeFromLastSetter` | internal/policy/resolver.go:157-165 | Enforcement, gateway and default credential come from the last applicable policy, in chain order, that sets them, else the default; only cluster policies set the default credential |
| `ResolverTheorems.ChainIsOrdered` | internal/policy/resolver.go:480-487 | Cluster policies are ordered by name, namespace and workload policies by priority and then name |
| `ResolverTheorems.SourcesExact` | internal/policy/resolver.go:214-218 | Sources is strictly ascending and names exactly the applicable policies with rules or a quota |
| `SelectionTheorems.SelectorExactly` | internal/policy/resolver.go:489-500 | A label selector fails exactly if an expression does not parse, and otherwise holds exactly if every listed pair is among the labels and every In, NotIn, Exists and DoesNotExist expression is met |
| `SelectionTheorems.WorkloadSelectorExactly` | internal/policy/resolver.go:518-544 | An account that is not listed is turned away before the pod selector is looked at; for a fitting one the pod selector decides, and can fail |
| `SelectionTheorems.TiersExactly` | internal/policy/resolver.go:131-196 | Over the selectors' fields: which policies of the lists make up the cluster, the namespace and the workload tier |
| `SelectionTheorems.ResolveFailsExactly` | internal/policy/resolver.go:131-196 | Resolve fails exactly if a cluster selector, or that of a workload policy whose accounts fit the identity, does not parse, and names the first such policy |
| `SelectionTheorems.GovernedExactly` | internal/policy/resolver.go:147-212 | Governed iff some policy governs the scope, model-governed iff one with rules does |
| `SelectionTheorems.RulesExactly` | internal/policy/resolver.go:147-212 | Each tier holds exactly the rules of the policies that govern it, under ClusterTokenPolicy/name or TokenPolicy/namespace/name |
| `SelectionTheorems.SourcesByGovernor` | internal/policy/resolver.go:214-218 | Sources names exactly the governing policies with rules or a quota |
| `SelectionTheorems.QuotaIsLeastByField` | internal/policy/resolver.go:451-478 | Each of the four limits is the least one a governing policy sets, unset if none does |
| `SelectionTheorems.ScalarsFromLastWord` | internal/policy/resolver.go:157-165 | Enforcement and gateway come from the governing policy that sets them and outranks all others that do, by tier, then priority, then name |
| `SelectionTheorems.DefaultCredentialFromLastWord` | internal/policy/resolver.go:157-165 | The default credential comes from the last-named governing cluster policy that names one |
| `Quotas.MinQuotaIsMeet` | internal/policy/resolver.go:451-478 | The field-wise minimum is below both quotas, takes each window from one of them, and is nil only if both are |
| `Sorting.SortForgetsOrder` | internal/policy/resolver.go:480-487 | A stable sort by (priority, name) of policies with distinct keys does not depend on the input order, so the sorting algorithm does not matter |
| `Sorting.SortSorts` | internal/policy/resolver.go:480-487 | The sort yields an ordered permutation of its input |
| `PermitTheorems.PermitExactly` | internal/policy/resolver.go:301-342 | A model is permitted iff every tier has no matching Deny and, if it has any Allow, a matching one |
| `PermitTheorems.TierDeniesExactly` | internal/policy/resolver.go:385-419 | The verdict of a tier, specified by recursive first-match searches over its rules, is Deny exactly when the tier does not admit the query |
| `PermitTheorems.PermitCongruent` | internal/policy/resolver.go:428-442 | Verdict, credential and denier depend only on the trimmed, lower-cased provider and model |
| `PermitTheorems.NarrowNeverWiden` | internal/policy/resolver.go:10-24 | What a workload may use its namespace default may, and what that may use the cluster tier alone permits; each quota window only becomes set or smaller; broader scopes resolve whenever the narrower one does |
| `PermitTheorems.WorkloadTierDecides` | internal/policy/resolver.go:301-342 | A workload may use exactly what its namespace default may and its own workload tier admits |
| `PermitTheorems.OneMoreRule` | internal/policy/resolver.go:386-419 | Exact effect of inserting a rule anywhere in a tier: a Deny removes what it matches, a first Allow keeps only what it matches, a further Allow adds what it matches minus the tier's Denies and what the other tiers refuse |
| `PermitTheorems.CredentialFromNarrowestTier` | internal/policy/resolver.go:325-335 | The credential is the one named by the first matching Allow of the narrowest tier where that rule names one, else the default credential |
| `PermitTheorems.MostSpecificNamingAllowExactly` | internal/policy/resolver.go:403-411 | The documented rule, that the most specific Allow naming a credential wins, holds exactly when no Allow in front of that one in its tier matches; otherwise the credential is that of a broader tier or the default |
| `PermitTheorems.DefaultCredentialOtherwise` | internal/policy/resolver.go:325-335 | Where no matching Allow names a credential the default credential is used |
| `Counterexamples.LaterNamingRuleIsPassedOver` | internal/policy/resolver.go:403-411 | A policy that allows the model twice, the second time with a credential: Permit answers with the default |
| `PermitTheorems.CredentialFromLowestPriority` | internal/policy/resolver.go:403-411 | Within a tier that first matching Allow belongs to the policy with the lowest (priority, name) among those with a matching Allow |
| `PermitTheorems.HighestPriorityWinsExactly` | api/v1alpha1/tokenpolicy_types.go:34-35 | The documented rule that the highest priority wins holds of the credential exactly when all policies with a matching Allow share one priority; the supplier is last by priority and name exactly when it is the only one |
| `Counterexamples.LowerPrioritySupplies` | internal/policy/resolver.go:403-411 | Of two policies with priorities 0 and 10 that allow the model, Permit returns the credential of the lower one |
| `PermitTheorems.DenialNamesNarrowest` | internal/policy/resolver.go:309-321 | A refusal names the narrowest tier that does not admit: the source of its first matching Deny, or its allowlist |
| `PermitTheorems.DenialEvidenceListed` | internal/policy/resolver.go:397-402 | If the narrowest denying tier has a matching Deny, the denier is one of Sources; otherwise it is the allowlist of that tier |
| `PermitTheorems.EffectiveModelsDistinct` | internal/policy/resolver.go:349-362 | The enumeration lists no lower-cased key twice |
| `PermitTheorems.EffectiveModelsCover` | internal/policy/resolver.go:367-381 | Every Allow rule has an entry with its key, the source of the first rule with that key, and the verdict and credential Permit gives the rule's own provider and model |
| `DecisionTheorems.PermitByRules` | internal/policy/resolver.go:301-342 | Over rule fields: permitted iff in each tier no Deny hits the query and, if there are other rules, one of them does; a rule without an action allows |
| `DecisionTheorems.PermittedByPolicies` | internal/policy/resolver.go:127-342 | From selectors to verdict: permitted iff among the policies governing each tier no Deny rule hits the query and, where there are other rules, one does |
| `DecisionTheorems.CatchAllDenies` | internal/policy/resolver.go:437-437 | A governing policy with a Deny of * for * refuses every query, slashes included |
| `DecisionTheorems.CatchAllAllows` | internal/policy/resolver.go:437-437 | A governing policy with an Allow of * for * lets through its tier whatever no Deny of the tier hits |
| `DecisionTheorems.EnumeratedByFields` | internal/policy/resolver.go:346-383 | Every rule that does not deny has an entry under its lower-cased names with the verdict and credential of its own names |
| `DecisionTheorems.EntryByFields` | internal/policy/resolver.go:346-383 | Every entry is that of such a rule, and carries its source |
| `Glob.LiteralMatchesItself` | internal/policy/resolver.go:434-442 | A pattern without metacharacters matches exactly the values with its own normal form |
| `GlobTheorems.PathMatchIsWild` | internal/policy/resolver.go:434-442 | On patterns of characters, ? and * the greedy matcher, which settles each star at the first fit, agrees with trying every place, slashes included, and reports no bad pattern |
| `GlobTheorems.PlainGlobExactly` | internal/policy/resolver.go:434-442 | Such a rule pattern matches iff it is the catch-all, equals the value, or matches wildly, after trimming and lower-casing |
| `GlobTheorems.CatchAllMatches` | internal/policy/resolver.go:437-437 | The pattern * matches every value, slashes included |
| `GlobTheorems.TrailingStarExactly` | internal/policy/resolver.go:434-442 | prefix* matches exactly the values that start with the prefix and have no slash behind it |
| `GlobTheorems.OneRangeClass` | internal/policy/resolver.go:439-441 | A class of one range stands for one character in it, or with ^ for one outside it |
| `GlobTheorems.ListedClass` | internal/policy/resolver.go:439-441 | A class of listed characters stands for one of them |
| `GlobTheorems.EscapedInClass` | internal/policy/resolver.go:439-441 | Inside a class too an escaped character stands for itself |
| `GlobTheorems.EscapedCharacter` | internal/policy/resolver.go:439-441 | An escaped character stands for itself |
| `Strings.NormAbsorbs` | internal/policy/resolver.go:435-436 | Trimming or lower-casing beforehand, in either order, does not change the normal form |
| `StringTheorems.TrimSpaceExactly` | internal/policy/resolver.go:435-436 | Trimming removes a blank front and back, as much as there is |
| `StringTheorems.ToLowerExactly` | internal/policy/resolver.go:435-436 | Lower-casing replaces each capital by the small letter at its place in the alphabet and nothing else |
| `StringTheorems.StrLessExactly` | internal/policy/resolver.go:480-487 | Names are compared at the first place where they differ, a proper prefix being less |
| `StringTheorems.JoinSplit` | internal/webhook/v1alpha1/webhook_common.go:59-60 | Splitting at commas loses nothing: joined again, the parts are the annotation |
| `Declarations.ParseModels` | internal/webhook/v1alpha1/webhook_common.go:52-70 | The token loop returns what the parse function defines |
| `Declarations.ParsedWellFormed` | internal/webhook/v1alpha1/webhook_common.go:59-68 | Every parsed declaration is trimmed and nonempty, without comma, and without slash in the provider, although emptiness is tested before the inner trims |
| `Declarations.ParsePrint` | internal/webhook/v1alpha1/webhook_common.go:52-70 | Parsing the comma-joined printing of well-formed declarations gives them back |
| `Declarations.ParsePrintParse` | internal/webhook/v1alpha1/webhook_common.go:52-70 | Printing what was parsed and parsing it again changes nothing |
| `AdmissionTheorems.ParsedByTokens` | internal/webhook/v1alpha1/webhook_common.go:52-70 | The annotation declares exactly what its comma-separated tokens read as: two nonempty parts around the first slash |
| `AdmissionTheorems.PaddedToken` | internal/webhook/v1alpha1/webhook_common.go:59-68 | Blanks around a token, its provider or its model change nothing |
| `Declarations.Merger.Add` | internal/webhook/v1alpha1/webhook_common.go:82-97 | Each call of the closure keeps `seen` a bijection between keys and indices of `out`, and `out` the merge of what was added |
| `Declarations.DeclaredModelsForPod` | internal/webhook/v1alpha1/webhook_common.go:78-125 | Returns the merge of all declarations of the matching claims in name order, then the annotation; claims with malformed selectors are skipped |
| `AdmissionTheorems.DeclaresExactly` | internal/webhook/v1alpha1/webhook_common.go:99-123 | Declared is exactly what a claim that selects the pod requests, with its preference, or the annotation reads as |
| `AdmissionTheorems.ClaimOrderIsForgotten` | internal/webhook/v1alpha1/webhook_common.go:99-104 | The order in which claims are listed does not matter |
| `AdmissionTheorems.FirstNamedClaimPrefers` | internal/webhook/v1alpha1/webhook_common.go:89-116 | The preference for a model is that of the first-named claim that selects the pod and prefers a credential for it |
| `Declarations.MergeDistinct` | internal/webhook/v1alpha1/webhook_common.go:88-96 | No key appears twice |
| `Declarations.MergeEntry` | internal/webhook/v1alpha1/webhook_common.go:88-96 | Every declaration's key appears, with the first nonempty credential preference stated for it |
| `Declarations.MergeOrigin` | internal/webhook/v1alpha1/webhook_common.go:88-96 | An entry keeps the spelling of the first declaration with its key |
| `Declarations.PreferenceIsFirst` | internal/webhook/v1alpha1/webhook_common.go:89-94 | The preference of a key is the first nonempty one, and empty only if all are |
| `FirstOccurrences.FirstsOrigin` | internal/webhook/v1alpha1/webhook_common.go:95-96 | First occurrences keep their original order |
| `PodValidation.Validate` | internal/webhook/v1alpha1/pod_webhook.go:42-95 | The validator's branches and loop compute the response function: which refusals, in which order, as violations or warnings |
| `PodValidation.AdmissionExact` | internal/webhook/v1alpha1/pod_webhook.go:71-94 | In Enforce mode a pod is rejected iff some nonblank raw declaration (claim model or annotation token) is refused by Permit |
| `PodValidation.RejectionNeedsEnforce` | internal/webhook/v1alpha1/pod_webhook.go:49-69 | A rejection implies a non-exempt scope, successful reads, a governed scope and Enforce mode |
| `AdmissionTheorems.RejectedExactly` | internal/webhook/v1alpha1/pod_webhook.go:42-94 | Over the fields of request, pod and cluster: a pod is rejected iff its scope is looked at, everything can be read, the policies resolve and govern it in Enforce mode, and some nonblank declaration made for it is refused |
| `AdmissionTheorems.SilentOtherwise` | internal/webhook/v1alpha1/pod_webhook.go:42-94 | There is a warning iff the same holds in Audit mode |
| `PodValidation.AuditWarnsOncePerKey` | internal/webhook/v1alpha1/pod_webhook.go:79-83 | In Audit mode the pod is admitted, no two warnings are for one key, and the keys warned about are exactly the refused ones |
| `PodValidation.RejectionListsOncePerKey` | internal/webhook/v1alpha1/pod_webhook.go:84-91 | A rejection carries no warning, and its violations are for exactly the refused keys, one each |
| `PodValidation.RejectionStandsExactly` | internal/policy/resolver.go:234-236 | What the namespace default rejects, the resolution of a workload rejects exactly if no workload policy sets a mode or the last one that does sets Enforce |
| `Counterexamples.DisabledWorkloadIsAdmitted` | internal/policy/resolver.go:234-236 | A pod its namespace default rejects is admitted under a workload policy that sets Disabled, although Permit still refuses the model |
| `PodMutation.Pod.Default` | internal/webhook/v1alpha1/pod_webhook.go:105-187 | The in-place mutation of annotations, containers and volumes leaves the pod the value-level definition gives, also when a read fails half way |
| `MutationTheorems.OptedOutIsUntouched` | internal/webhook/v1alpha1/pod_webhook.go:115-117 | A pod whose annotation opts out is left exactly as it is |
| `MutationTheorems.BindsExactly` | internal/webhook/v1alpha1/pod_webhook.go:105-134 | Binding is reached iff the scope is looked at, the pod does not opt out, everything can be read, the policies resolve, something nonblank is declared and the result is governed; otherwise the pod stays as it is |
| `MutationTheorems.BindableExactly` | internal/webhook/v1alpha1/pod_webhook.go:156-172 | A credential is bound iff it can be read, exists and allows the namespace; the request fails iff it cannot be read or the answer rests on unreadable labels or a selector that does not parse |
| `MutationTheorems.DeliveredAs` | internal/webhook/v1alpha1/pod_webhook.go:189-269 | Env var, mount and volume of a credential by its mode, names, paths, provider, Secret and key |
| `MutationTheorems.AnnotationsAfterBinding` | internal/webhook/v1alpha1/pod_webhook.go:180-186 | After a run that does not fail: what the two annotations say, and that no other is touched |
| `PodMutation.Pod.InjectCredential` | internal/webhook/v1alpha1/pod_webhook.go:189-211 | Injects as the delivery mode says and reports whether a container gained the item |
| `PodMutation.Apply` | internal/webhook/v1alpha1/pod_webhook.go:224-234 | The in-place loop appends the item to exactly the containers without one of that name |
| `PodMutation.OrderCredentials` | internal/webhook/v1alpha1/pod_webhook.go:139-154 | The credentials to bind, in first-occurrence order, policy credential before preference |
| `DeliveryTheorems.OrderFollowsDeclarations` | internal/webhook/v1alpha1/pod_webhook.go:139-154 | Credentials are bound in the order in which declarations first call for them |
| `InjectionTheorems.DefaultIsIdempotent` | internal/webhook/v1alpha1/pod_webhook.go:105-187 | A second invocation leaves the pod exactly as it is, annotations included |
| `InjectionTheorems.MutationInvisibleToValidator` | internal/webhook/v1alpha1/pod_webhook.go:42-95 | The validator answers the same before and after mutation, even when the mutation was cut short |
| `InjectionTheorems.DefaultOnlyAdds` | internal/webhook/v1alpha1/pod_webhook.go:189-269 | Original env and mounts stay prefixes, duplicate-free env names stay so, and at most two annotations change |
| `InjectionTheorems.BoundCredentialJustified` | internal/webhook/v1alpha1/pod_webhook.go:136-178 | A credential reported as bound exists, authorizes the namespace, and is what some permitted nonblank declaration calls for |
| `InjectionTheorems.OrderedCredentialJustified` | internal/webhook/v1alpha1/pod_webhook.go:136-154 | Every credential considered for binding is what some permitted nonblank declaration of the pod calls for |
| `InjectionTheorems.EveryAdditionIsADelivery` | internal/webhook/v1alpha1/pod_webhook.go:156-187 | Every env var, mount and volume present afterwards and not before, reported or not, is the delivery of a considered credential that exists and authorizes the namespace; a pod that is passed over gains nothing |
| `DeliveryTheorems.CarriesExactly` | internal/webhook/v1alpha1/pod_webhook.go:216-234 | After a run that does not fail a container carries a credential exactly if it did before, or had nothing of that kind and name and no earlier credential delivers something of that kind and name |
| `DeliveryTheorems.PermittedDeclarationIsServed` | internal/webhook/v1alpha1/pod_webhook.go:136-178 | The credential a permitted declaration calls for, if it may be bound here, has a place in the binding order and ends up in exactly the containers that carried it or receive it; elsewhere its name is taken |
| `DeliveryTheorems.SharedNameIsNotServed` | internal/webhook/v1alpha1/pod_webhook.go:224-231 | Two credentials with one env name: both may be bound, no container carries the second, and the bound list omits it |
| `DeliveryTheorems.ReportedExactly` | internal/webhook/v1alpha1/pod_webhook.go:156-176 | A credential is in the bound list exactly if some container receives it |
| `DeliveryTheorems.BoundIsCarried` | internal/webhook/v1alpha1/pod_webhook.go:156-176 | A credential in the bound list is carried by some container |
| `DeliveryTheorems.VolumeExactly` | internal/webhook/v1alpha1/pod_webhook.go:244-255 | A volume of a credential's name is there afterwards exactly if it was before, or the name was free and it is the one delivered |
| `DeliveryTheorems.ReinvocationLists` | internal/webhook/v1alpha1/pod_webhook.go:180-182 | After a second run on a pod changed in between, the annotation lists what that run bound, or the earlier list if it bound nothing; it keeps every earlier name exactly if nothing is bound or all of them are bound again |
| `DeliveryTheorems.ReinvocationForgets` | internal/webhook/v1alpha1/pod_webhook.go:180-182 | A sidecar that has the first env var already makes the second run forget a credential the app still carries |
| `InjectionTheorems.ReportIsChangeExactly` | internal/webhook/v1alpha1/pod_webhook.go:189-191 | injectCredential's report means "the pod changed" exactly unless the volume is missing while no container lacks the mount |
| `InjectionTheorems.UnreportedVolume` | internal/webhook/v1alpha1/pod_webhook.go:238-269 | A credential and a pod whose container already mounts the volume: the pod gains the volume while the report is false |
| `BindingTheorems.AuthorizationAgreesExactly` | internal/webhook/v1alpha1/webhook_common.go:178-196 | For an existing namespace admission-time and replication-time authorization agree, errors included, exactly unless the selector is malformed and the namespace explicitly allowed; for any other, the exact condition |
| `BindingTheorems.MalformedSelectorDisagrees` | internal/webhook/v1alpha1/webhook_common.go:179-183 | With a malformed selector an explicitly allowed namespace may bind while replication fails |
| `BindingTheorems.RefersToCopyExactly` | internal/webhook/v1alpha1/pod_webhook.go:236-269 | In the pod the webhook leaves, the env var or mount of a credential refers to the Secret and key of its copy exactly unless the pod already had a volume of that name over something else |
| `BindingTheorems.BoundCredentialIsReplicated` | internal/webhook/v1alpha1/pod_webhook.go:213-269 | A credential in the bound list is carried by some container, refers to its copy under that condition, and once the copy's write succeeds the copy holds the source value exactly unless another controller owns the name |
| `BindingTheorems.BoundToForeignVolume` | internal/webhook/v1alpha1/pod_webhook.go:243-244 | A credential bound through a mount of a volume the pod had for a purpose of its own |
| `Replication.Reconciler.Reconcile` | internal/controller/modelcredential_controller.go:44-114 | One pass has only the allowed effects on the Secret store and reports only the truth, for every outcome of every API call |
| `Replication.Reconciler.AuthorizedNamespaces` | internal/controller/modelcredential_controller.go:116-138 | The explicit list plus the matching namespaces; a malformed selector fails only when a namespace exists to test it on |
| `Replication.Reconciler.SyncSecret` | internal/controller/modelcredential_controller.go:140-161 | Writes the copy unless another controller owns the name or the call is refused |
| `Replication.Reconciler.SyncAll` | internal/controller/modelcredential_controller.go:83-92 | In any order of the authorized set, exactly the writable copies are written and exactly the confirmed ones are listed |
| `Replication.Reconciler.PruneSecrets` | internal/controller/modelcredential_controller.go:163-178 | Deletes only this credential's label outside the authorized set, and all of it when it returns without error |
| `Replication.Reconciler.Report` | internal/controller/modelcredential_controller.go:99-110 | A pass reaches its status exactly when both policy lists can be read, and then reports the rollup and capacity of those lists |
| `ReplicationTheorems.UnresolvedExactly` | internal/controller/modelcredential_controller.go:52-74 | A pass is unresolved iff the Secret the credential names, in the namespace it names or else that of the operator, or its key, is missing |
| `ReplicationTheorems.ReplicatedExactly` | internal/controller/modelcredential_controller.go:52-178 | Over fields: after a failure-free pass every authorized namespace holds exactly {key: value of the named source} with source annotation, labels and owner, or the untouched Secret of another controller; no other namespace bears the label; the rest is as before |
| `ReplicationTheorems.SyncedByFields` | internal/controller/modelcredential_controller.go:83-92 | Reported as synced are exactly the authorized namespaces whose Secret may be taken and whose write is confirmed |
| `ReplicationTheorems.AuthorizedExactly` | internal/controller/modelcredential_controller.go:116-138 | Authorized are the listed namespaces and those whose labels meet the selector; undecidable iff the selector does not parse and there is a namespace |
| `Replication.CopyIsGood` | internal/controller/modelcredential_controller.go:145-159 | A write leaves exactly {key: value}, both labels, the source annotation, the type and the owner, and keeps foreign labels and annotations |
| `Replication.PassStabilisesExactly` | internal/controller/modelcredential_controller.go:78-97 | From any store, a failure-free pass with a resolved source leaves it exact iff no authorized namespace holds the copy's name under another controller |
| `Replication.ForeignSecretStays` | internal/controller/modelcredential_controller.go:140-161 | A Secret of the copy's name under another controller stays as it is in a pass in which no call fails |
| `Replication.GoodCopyExactly` | internal/controller/modelcredential_controller.go:140-161 | Whichever other calls fail, an authorized namespace holds a good copy after a pass iff its write took effect or a good copy was there; if the write succeeds, iff no other controller holds the name |
| `Replication.SecondPassChangesNothing` | internal/controller/modelcredential_controller.go:78-97 | After a failure-free pass a further pass over the same state changes no Secret, whichever of its calls fail |
| `Replication.PassLeavesOthersAlone` | internal/controller/modelcredential_controller.go:140-178 | Whatever fails, Secrets that have neither the copy's name nor the credential's label are untouched |
| `Replication.OtherCredentialsUntouched` | internal/controller/modelcredential_controller.go:140-178 | Good copies of a differently named credential survive |
| `Replication.SourceSurvivesExactly` | internal/controller/modelcredential_controller.go:163-178 | A failure-free pass leaves its own source readable exactly unless that Secret bears the credential's label outside the authorized set |
| `Replication.PrunesExactly` | internal/controller/modelcredential_controller.go:57-97 | A failure-free pass leaves nothing stale exactly if the source resolves or nothing was stale |
| `Replication.MissingSourceKeepsStaleCopy` | internal/controller/modelcredential_controller.go:57-74 | Without a source, a copy in a namespace without authorization survives a pass in which no call fails |
| `Replication.PruningDeletesSource` | internal/controller/modelcredential_controller.go:163-178 | A store whose source Secret bears the credential's label and a successful pass that deletes it |
| `ReplicationRuns.RunsAreSafe` | internal/controller/modelcredential_controller.go:44-178 | Over every interleaving with relabelling, spec edits, rotation, drift and failures: each unchanged copy lies in its pass's snapshot and holds the value that pass read; spec, value and snapshot were each true earlier, in that order; reported namespaces are an ascending subset of the snapshot |
| `ReplicationRuns.RevocationIsFinal` | internal/controller/modelcredential_controller.go:94-97 | Once a namespace stays unauthorized, the first later pass whose pruning completes removes the credential and no pass brings it back |
| `ReplicationRuns.OtherCredentialsNeverLabel` | internal/controller/modelcredential_controller.go:147-158 | An environment whose writes to Secrets are passes of differently named credentials meets the hypothesis of RevocationIsFinal |
| `ReplicationRuns.ReportIsTruthful` | internal/controller/modelcredential_controller.go:83-97 | If nobody else writes Secrets during a pass, at the end of pruning every namespace counted as synced holds a good copy and the label is nowhere outside the snapshot |
| `ReplicationRuns.UninterruptedRunIsPass` | internal/controller/modelcredential_controller.go:78-97 | An uninterrupted call-by-call run has the store effect and the synced set of the reconcile method |
| `Capacity.ReferencingPolicies` | internal/controller/modelcredential_controller.go:185-226 | Sorted, duplicate-free keys of exactly the referencing policies, and the wrapped field-wise sums over each of them once |
| `ReplicationTheorems.ReferencesExactly` | internal/controller/modelcredential_controller.go:189-235 | The references are exactly the policies with a rule, or a cluster default, that names the credential, each under its key and with its quota |
| `ReplicationTheorems.ReportedPolicies` | internal/controller/modelcredential_controller.go:220-226 | The reported policies are exactly the keys of these, ascending |
| `Capacity.CountReferences` | internal/controller/modelcredential_controller.go:193-218 | The loops with the shared key set count each key once in wrapping int64 arithmetic |
| `Capacity.RollupExact` | internal/controller/modelcredential_controller.go:276-293 | A reported sum equals the true sum exactly when the true sum fits in int64, whatever the partial sums; it is nil iff no counted policy limits the window |
| `Capacity.EveryReferenceCounts` | internal/controller/modelcredential_controller.go:189-218 | For uniquely named objects every referencing policy counts, once |
| `Capacity.CountsAllowRulesExactly` | internal/controller/modelcredential_controller.go:181-183 | What is counted is what the comment says, the policies with an Allow rule or default naming the credential, exactly when no policy binds it through Deny rules alone |
| `Capacity.DenyRuleCounts` | internal/controller/modelcredential_controller.go:228-235 | A policy whose only rule is a Deny naming the credential adds its quota to the committed demand |
| `Capacity.RollupOfListsForgetsOrder` | internal/controller/modelcredential_controller.go:189-218 | The rollup does not depend on the order of either list |
| `Capacity.ConservationExactly` | internal/controller/modelcredential_controller.go:295-312 | For a declared capacity, available plus the covered allocation equals the capacity exactly when capacity minus allocation fits in int64 |
| `Capacity.ConservationFails` | internal/controller/modelcredential_controller.go:295-312 | A negative, wrapped allocation against the largest capacity leaves nothing available |
| `Capacity.AvailableOnlyWhereDeclared` | internal/controller/modelcredential_controller.go:295-301 | Availability is reported exactly for windows with a declared capacity |
| `Capacity.OversubscribedExactly` | internal/controller/modelcredential_controller.go:314-324 | Oversubscribed iff in some declared window available plus allocated exceeds capacity |
| `Capacity.OversubscribedIsTrue` | internal/controller/modelcredential_controller.go:314-324 | When the true totals of the declared windows fit, oversubscribed iff some declared window's true total exceeds capacity |
| `Capacity.OversubscribedIsTrueExactly` | internal/controller/modelcredential_controller.go:314-324 | For nonnegative limits the verdict is the true one exactly when every declared window's total fits in int64 or some declared window's total exceeds its capacity even after wrapping |
| `Capacity.OverflowHidesDemand` | internal/controller/modelcredential_controller.go:289-291 | Demand of 2^63 against a capacity of 1000 is reported as within capacity |
| `Capacity.MapQuota2PerWindow` | internal/controller/modelcredential_controller.go:326-351 | Through all the nil normalisation each window is the operation applied to that window |
| `Claims.ReconcileClaim` | internal/controller/modelclaim_controller.go:55-80 | The nested loops compute the per-request verdicts; Bound iff none is Deny; bound credentials are the deduplicated ones of Allow entries |
| `Claims.ResolveOne` | internal/controller/modelclaim_controller.go:141-172 | The loop over the identities computes verdict, credential and source of one request |
| `Claims.DistinctAllowedCredentials` | internal/controller/helpers.go:25-40 | Returns the first occurrences of the credentials of Allow entries |
| `Claims.BoundCredentialsExactly` | internal/controller/helpers.go:25-40 | Duplicate-free, and exactly the nonempty credentials of Allow entries |
| `Claims.ClaimIdentities` | internal/controller/modelclaim_controller.go:100-116 | There is always at least one identity |
| `PreviewTheorems.PreviewedExactly` | internal/controller/modelclaim_controller.go:100-121 | A request is allowed iff every listed account, or the unnamed one, may use the model under the listed labels; the claim fails iff the policies do not resolve for one of them |
| `Claims.ClaimVerdictExact` | internal/controller/modelclaim_controller.go:118-121 | A request is Allow iff every identity resolves and permits it |
| `Claims.BoundExactly` | internal/controller/modelclaim_controller.go:72-80 | Bound iff every requested model is permitted for every identity |
| `Claims.ResolvedRequestEvidence` | internal/controller/modelclaim_controller.go:145-164 | Allow carries the first credential named, else the claim's preference; Deny carries none, and the first denier |
| `Claims.MoreAccountsNeverAllow` | internal/controller/modelclaim_controller.go:108-115 | Adding an account to a nonempty list never turns a Deny into an Allow |
| `Claims.BoundModelIsAdmitted` | internal/controller/modelclaim_controller.go:95-99 | A model allowed by the claim is permitted at admission for every pod with the claim's matchLabels and a listed account |
| `Claims.PreviewedModelExactly` | internal/controller/modelclaim_controller.go:95-99 | For every pod of the namespace, a model the claim's preview allows is permitted at admission iff the workload tier of the pod admits it |
| `BindingTheorems.PreviewedCredentialExactly` | internal/controller/modelclaim_controller.go:150-171 | When the credential a preview reports for an allowed request is the one considered for a covered pod: if the pod's own hierarchy names one, iff the first listed account to get one gets that; otherwise iff the preference first stated for the model is the one reported |
| `BindingTheorems.PreviewedCredentialOfOneAccount` | internal/controller/modelclaim_controller.go:150-171 | For a claim with one account they agree exactly unless the hierarchy names no credential and another preference for the model came first |
| `Counterexamples.BindingWithoutAccountsIsNoPromise` | internal/controller/modelclaim_controller.go:100-110 | A claim without accounts can be Bound although a pod it covers is refused |
| `Previews.PermitWarnings` | internal/webhook/v1alpha1/modelclaim_webhook.go:84-112 | One warning, in request order, for each requested model the cluster and namespace-default tiers refuse; none when a list fails or no rules exist |
| `PreviewTheorems.ModelFlaggedExactly` | internal/webhook/v1alpha1/modelclaim_webhook.go:84-112 | A requested model is flagged iff the lists can be read and the cluster and default policies resolve and refuse it |
| `PreviewTheorems.UngovernedPermits` | internal/webhook/v1alpha1/modelclaim_webhook.go:101-104 | Where no policy has rules everything is permitted, so skipping the preview there loses no warning |
| `Previews.FlaggedModelIsRefused` | internal/webhook/v1alpha1/modelclaim_webhook.go:105-110 | A flagged model is refused for every pod identity of the namespace |
| `Previews.HierarchyWarnings` | internal/webhook/v1alpha1/tokenpolicy_webhook.go:66-109 | One warning, in rule order, for each non-Deny rule the rest of the broader scope refuses |
| `PreviewTheorems.RuleFlaggedExactly` | internal/webhook/v1alpha1/tokenpolicy_webhook.go:66-109 | A rule is flagged iff it does not deny and the other policies, so read, refuse what it names |
| `Previews.ScopedRuleGrantsExactly` | internal/webhook/v1alpha1/tokenpolicy_webhook.go:98-107 | Of the models an Allow rule of a selector-scoped policy matches, literal or glob, a selected pod may use exactly those the previewed scope permits and no Deny selecting the pod matches |
| `Previews.FlaggedLiteralRuleIsDead` | internal/webhook/v1alpha1/tokenpolicy_webhook.go:98-107 | A flagged literal rule of a selector-scoped policy grants nothing to any pod |
| `Previews.DefaultRuleGrantsExactly` | internal/webhook/v1alpha1/tokenpolicy_webhook.go:98-107 | Of the models an Allow rule of a namespace-default policy matches, exactly those the cluster tier admits and no Deny among the defaults matches are permitted |
| `Previews.DefaultRuleWarningExactly` | internal/webhook/v1alpha1/tokenpolicy_webhook.go:98-107 | On a namespace-default policy the warning is right iff the cluster tier refuses the model or a Deny among the defaults matches it |
| `Counterexamples.FlaggedGlobGrants` | internal/webhook/v1alpha1/tokenpolicy_webhook.go:102-105 | A flagged glob rule that does grant a model to its workload |
| `Counterexamples.FlaggedDefaultRuleGrants` | internal/webhook/v1alpha1/tokenpolicy_webhook.go:98-107 | A flagged literal rule of a namespace-default policy that does grant its model |

## Left out

- Manager wiring, flags, health checks, certificates, Helm templates, RBAC, metrics, logging, status
  conditions and the wording of denial reasons: configuration and side output, no decision depends on them.
- The Kubernetes client, caches, watches and requeues: replaced by a cluster value with failing reads and a
  Secret store whose calls each have an outcome. Within one webhook request a call has one outcome.
- Gateway artifacts (`internal/gateway/gateway.go`): the resolver copies the gateway value, which is opaque
  here. Per-rule quotas and credential model globs are read by no decision.
- Status fields other than those of the claim, credential and quota rollups.
- Strings are sequences of single-byte characters; Unicode case folding and space are not modelled.
- `path.Match` is written out after the algorithm of Go's standard library, which is not part of the
  repository; mixed classes, classes next to stars, and errors in a pattern are stated only by that. Label selectors are concrete, except that the syntax of label keys and values is not checked.
- Enumerated string fields hold only the values their CRD schema admits, or are unset.
- Library sorts are one stable insertion sort on values; the uniqueness lemmas make the algorithm
  immaterial wherever names are distinct. With equal cluster policy names, which the API server rules out,
  Go's unstable sort could order them differently. Sorting in place is not modelled.
- Env and mount injection share one `Apply` loop parameterised by the item; container fields other than
  name, env and mounts are not modelled. An absent and an empty annotation map are one value.
- Deletion of a credential object and the garbage collection of its copies; the status write itself.
- Hard structural validation in the webhooks and the missing-credential warnings: single-branch checks.
- Overlapping passes of one credential: the controller's work queue runs one at a time. The environment of a
  pass is unrestricted.
