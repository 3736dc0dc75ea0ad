/**
 The resolver as the program runs it: one mutable Effective that loops update policy by policy, a source
 set that is drained in arbitrary order, and in-order early returns on selector errors. Every method is
 proved to compute the value that module Resolver defines.
 */
module ResolverEngine {
  import opened Wrappers
  import opened Strings
  import opened Sorting
  import opened Api
  import opened Quotas
  import opened Resolver
  import opened FirstOccurrences

  lemma {:induction false} FirstFaultStops<T>(fault: T -> Option<ResolveError>, s: seq<T>, k: nat)
    requires k <= |s| && FirstFault(fault, s[..k]).Some?
    ensures FirstFault(fault, s) == FirstFault(fault, s[..k])
  {
    if k == |s| {
      assert s[..k] == s;
    } else {
      var front := s[..|s| - 1];
      assert front[..k] == s[..k];
      FirstFaultStops(fault, front, k);
    }
  }

  /** The sources a fold over the layers has collected. */
  ghost function SourceSet(layers: seq<Layer>): set<string> {
    set l | l in layers && l.Contributes() :: l.source
  }

  lemma SourceSetOne(layer: Layer)
    ensures SourceSet([layer]) == if layer.Contributes() then {layer.source} else {}
  {
  }

  lemma SourceSetAppend(layers: seq<Layer>, layer: Layer)
    ensures SourceSet(layers + [layer]) == SourceSet(layers) + if layer.Contributes() then {layer.source} else {}
  {
  }

  lemma {:induction false} SourceNamesAreSourceSet(layers: seq<Layer>)
    ensures NoDuplicates(SourceNames(layers))
    ensures forall x :: x in SourceNames(layers) <==> x in SourceSet(layers)
  {
    if layers == [] {
    } else {
      var front, last := layers[..|layers| - 1], layers[|layers| - 1];
      SourceNamesAreSourceSet(front);
      assert layers == front + [last];
      assert SourceSet(layers) == SourceSet(front) + if last.Contributes() then {last.source} else {};
    }
  }

  lemma MergedNames(names: seq<string>, layers: seq<Layer>, extra: seq<Layer>)
    requires NoDuplicates(names) && forall x :: x in names <==> x in SourceSet(layers) || x in SourceSet(extra)
    ensures SortStrings(names) == SortStrings(SourceNames(layers + extra))
  {
    SourceNamesAreSourceSet(layers + extra);
    assert SourceSet(layers + extra) == SourceSet(layers) + SourceSet(extra);
    SortStringsBySet(names, SourceNames(layers + extra));
  }

  method SetToSlice(names: set<string>) returns (r: seq<string>)
    ensures NoDuplicates(r)
    ensures forall x :: x in r <==> x in names
  {
    var rest := names;
    r := [];
    while rest != {}
      invariant rest <= names
      invariant NoDuplicates(r)
      invariant forall x :: x in r <==> x in names - rest
      decreases rest
    {
      var x :| x in rest;
      assert x !in r;
      rest := rest - {x};
      r := r + [x];
    }
  }

  method AppendUnique(s: seq<string>, v: string) returns (r: seq<string>)
    ensures r == if v in s then s else s + [v]
  {
    for i := 0 to |s|
      invariant v !in s[..i]
    {
      if s[i] == v {
        return s;
      }
    }
    return s + [v];
  }

  /** seen holds the keys and first sources of `firsts`; order lists the keys. */
  ghost predicate Tracks(firsts: seq<SourcedRule>, seen: map<ModelKey, string>, order: seq<ModelKey>) {
    && |order| == |firsts|
    && forall i :: 0 <= i < |order| ==>
         order[i] == RuleKey(firsts[i]) && order[i] in seen && seen[order[i]] == firsts[i].source
  }

  /** seen and order record the Allow keys of the rules walked so far, each with its first source. */
  ghost predicate Collected(rules: seq<SourcedRule>, seen: map<ModelKey, string>, order: seq<ModelKey>) {
    seen.Keys == KeySet(RuleKey, Filter(IsAllow, rules)) && Tracks(FirstAllows(rules), seen, order)
  }

  lemma CollectStep(done: seq<SourcedRule>, r: SourcedRule, seen: map<ModelKey, string>, order: seq<ModelKey>)
    requires Collected(done, seen, order)
    ensures if !IsAllow(r) || RuleKey(r) in seen then Collected(done + [r], seen, order)
            else Collected(done + [r], seen[RuleKey(r) := r.source], order + [RuleKey(r)])
  {
    assert Filter(IsAllow, done + [r]) == Filter(IsAllow, done) + if IsAllow(r) then [r] else [] by {
      assert (done + [r])[..|done|] == done;
    }
    if IsAllow(r) {
      CollectAllow(Filter(IsAllow, done), r, seen, order);
    } else {
      assert Filter(IsAllow, done + [r]) == Filter(IsAllow, done);
    }
  }

  lemma CollectAllow(allows: seq<SourcedRule>, r: SourcedRule, seen: map<ModelKey, string>, order: seq<ModelKey>)
    requires seen.Keys == KeySet(RuleKey, allows) && Tracks(Firsts(RuleKey, allows), seen, order)
    ensures var after := Firsts(RuleKey, allows + [r]);
            if RuleKey(r) in seen then KeySet(RuleKey, allows + [r]) == seen.Keys && Tracks(after, seen, order)
            else KeySet(RuleKey, allows + [r]) == seen[RuleKey(r) := r.source].Keys
                 && Tracks(after, seen[RuleKey(r) := r.source], order + [RuleKey(r)])
  {
    FirstsAppend(RuleKey, allows, r);
    if RuleKey(r) !in seen {
      TracksAppend(Firsts(RuleKey, allows), r, seen, order);
    }
  }

  lemma TracksAppend(firsts: seq<SourcedRule>, r: SourcedRule, seen: map<ModelKey, string>, order: seq<ModelKey>)
    requires Tracks(firsts, seen, order) && RuleKey(r) !in seen
    ensures Tracks(firsts + [r], seen[RuleKey(r) := r.source], order + [RuleKey(r)])
  {
  }

  /** The closure of EffectiveModels over one tier. */
  method Collect(rules: seq<SourcedRule>, seen: map<ModelKey, string>, order: seq<ModelKey>,
                 ghost before: seq<SourcedRule>)
    returns (seen': map<ModelKey, string>, order': seq<ModelKey>)
    requires Collected(before, seen, order)
    ensures Collected(before + rules, seen', order')
  {
    seen', order' := seen, order;
    assert before + rules[..0] == before;
    for i := 0 to |rules|
      invariant Collected(before + rules[..i], seen', order')
    {
      var r := rules[i];
      CollectStep(before + rules[..i], r, seen', order');
      assert before + rules[..i + 1] == before + rules[..i] + [r];
      if IsAllow(r) {
        var k := RuleKey(r);
        if k !in seen' {
          seen' := seen'[k := r.source];
          order' := order' + [k];
        }
      }
    }
    assert before + rules[..|rules|] == before + rules;
  }

  class Effective {
    var governed: bool
    var modelGoverned: bool
    var enforcement: EnforcementMode
    var quota: Option<TokenQuota>
    var gateway: Option<GatewayIntegration>
    var defaultCredential: string
    var sources: seq<string>
    var cluster: Tier
    var ns: Tier
    var wl: Tier

    constructor ()
      ensures Folded([])
      ensures cluster == ns == wl == Tier("", [])
    {
      governed, modelGoverned := false, false;
      enforcement, quota, gateway := Enforce, None, None;
      defaultCredential, sources := "", [];
      cluster, ns, wl := Tier("", []), Tier("", []), Tier("", []);
    }

    function View(): Resolved
      reads this
    {
      Resolved(governed, modelGoverned, enforcement, quota, gateway, defaultCredential, sources, cluster, ns, wl)
    }

    /** The scalar fields are what the layers folded so far determine. */
    ghost predicate Folded(layers: seq<Layer>)
      reads this
    {
      && enforcement == EnforcementOf(layers)
      && quota == QuotaOf(layers)
      && gateway == GatewayOf(layers)
      && defaultCredential == DefaultCredentialOf(layers)
    }

    method ApplyClusterPolicy(p: ClusterTokenPolicy, sourceSet: set<string>, ghost layers: seq<Layer>)
      returns (sourceSet': set<string>)
      requires Folded(layers) && sourceSet == SourceSet(layers)
      modifies this
      ensures Folded(layers + [ClusterLayer(p)]) && sourceSet' == SourceSet(layers + [ClusterLayer(p)])
      ensures cluster == Tier(old(cluster.name), old(cluster.rules) + SourceAll(p.models, ClusterSource(p.name)))
      ensures ns == old(ns) && wl == old(wl)
    {
      ghost var layer := ClusterLayer(p);
      assert (layers + [layer])[..|layers|] == layers;
      var src := ClusterSource(p.name);
      sourceSet' := sourceSet;
      for i := 0 to |p.models|
        invariant cluster == Tier(old(cluster.name), old(cluster.rules) + SourceAll(p.models, src)[..i])
        invariant ns == old(ns) && wl == old(wl) && Folded(layers)
      {
        cluster := Tier(cluster.name, cluster.rules + [SourcedRule(p.models[i], src)]);
      }
      if p.quota.Some? {
        quota := MinQuota(quota, p.quota);
        sourceSet' := sourceSet' + {src};
      }
      if p.enforcement != EnforcementUnset {
        enforcement := p.enforcement;
      }
      if p.gateway.Some? {
        gateway := p.gateway;
      }
      if p.defaultCredentialRef.Some? {
        defaultCredential := p.defaultCredentialRef.value;
      }
      if |p.models| > 0 {
        sourceSet' := sourceSet' + {src};
      }
      SourceSetAppend(layers, layer);
    }

    /** The rule loop of applyNamespaceTier. */
    method AppendRules(workload: bool, models: seq<ModelPermission>, src: string)
      modifies this`ns, this`wl
      ensures ns == if workload then old(ns) else Tier(old(ns.name), old(ns.rules) + SourceAll(models, src))
      ensures wl == if workload then Tier(old(wl.name), old(wl.rules) + SourceAll(models, src)) else old(wl)
    {
      ghost var all := SourceAll(models, src);
      for i := 0 to |models|
        invariant ns == if workload then old(ns) else Tier(old(ns.name), old(ns.rules) + all[..i])
        invariant wl == if workload then Tier(old(wl.name), old(wl.rules) + all[..i]) else old(wl)
      {
        assert all[..i + 1] == all[..i] + [SourcedRule(models[i], src)];
        if workload {
          wl := Tier(wl.name, wl.rules + [SourcedRule(models[i], src)]);
        } else {
          ns := Tier(ns.name, ns.rules + [SourcedRule(models[i], src)]);
        }
      }
      assert all[..|models|] == all;
    }

    /** applyNamespaceTier; the tier pointer of the program is the flag `workload`. */
    method ApplyNamespaceTier(workload: bool, p: TokenPolicy, src: string, sourceSet: set<string>,
                              ghost layers: seq<Layer>)
      returns (sourceSet': set<string>)
      requires src == PolicySource(p.namespace, p.name)
      requires Folded(layers) && sourceSet <= SourceSet(layers)
      modifies this
      ensures Folded(layers + [PolicyLayer(p)])
      ensures sourceSet' == sourceSet + SourceSet([PolicyLayer(p)])
      ensures ns == if workload then old(ns) else Tier(old(ns.name), old(ns.rules) + SourceAll(p.models, src))
      ensures wl == if workload then Tier(old(wl.name), old(wl.rules) + SourceAll(p.models, src)) else old(wl)
      ensures cluster == old(cluster) && sources == old(sources)
    {
      ghost var layer := PolicyLayer(p);
      assert (layers + [layer])[..|layers|] == layers;
      sourceSet' := sourceSet;
      AppendRules(workload, p.models, src);
      if |p.models| > 0 {
        sourceSet' := sourceSet' + {src};
      }
      if p.quota.Some? {
        quota := MinQuota(quota, p.quota);
        sourceSet' := sourceSet' + {src};
      }
      if p.enforcement != EnforcementUnset {
        enforcement := p.enforcement;
      }
      if p.gateway.Some? {
        gateway := p.gateway;
      }
      SourceSetOne(layer);
    }

    static method SelectClusterPolicies(input: ResolveInput) returns (r: Result<seq<ClusterTokenPolicy>, ResolveError>)
      ensures match r
              case Ok(matched) =>
                && FirstFault(ClusterFault(input.namespaceLabels), input.clusterPolicies) == None
                && matched == Filter(ClusterApplies(input.namespaceLabels), input.clusterPolicies)
              case Err(e) => FirstFault(ClusterFault(input.namespaceLabels), input.clusterPolicies) == Some(e)
    {
      var matched: seq<ClusterTokenPolicy> := [];
      var ps := input.clusterPolicies;
      for i := 0 to |ps|
        invariant matched == Filter(ClusterApplies(input.namespaceLabels), ps[..i])
        invariant FirstFault(ClusterFault(input.namespaceLabels), ps[..i]) == None
      {
        assert ps[..i + 1][..i] == ps[..i];
        match SelectorMatches(ps[i].namespaceSelector, input.namespaceLabels)
        case Err(_) =>
          FirstFaultStops(ClusterFault(input.namespaceLabels), ps, i + 1);
          return Err(BadNamespaceSelector(ps[i].name));
        case Ok(applies) =>
          if applies {
            matched := matched + [ps[i]];
          }
      }
      assert ps[..|ps|] == ps;
      return Ok(matched);
    }

    /** Partitions the namespace's policies into defaults and those matching the workload identity. */
    static method SelectPolicies(input: ResolveInput)
      returns (r: Result<(seq<TokenPolicy>, seq<TokenPolicy>), ResolveError>)
      ensures match r
              case Ok((nsDefaults, wlMatched)) =>
                && FirstFault(WorkloadFault(input.identity), input.namespacePolicies) == None
                && nsDefaults == Filter(IsNamespaceDefault, input.namespacePolicies)
                && wlMatched == Filter(WorkloadApplies(input.identity), input.namespacePolicies)
              case Err(e) => FirstFault(WorkloadFault(input.identity), input.namespacePolicies) == Some(e)
    {
      var nsDefaults: seq<TokenPolicy>, wlMatched: seq<TokenPolicy> := [], [];
      var ps := input.namespacePolicies;
      for i := 0 to |ps|
        invariant nsDefaults == Filter(IsNamespaceDefault, ps[..i])
        invariant wlMatched == Filter(WorkloadApplies(input.identity), ps[..i])
        invariant FirstFault(WorkloadFault(input.identity), ps[..i]) == None
      {
        assert ps[..i + 1][..i] == ps[..i];
        if IsEmpty(ps[i].selector) {
          nsDefaults := nsDefaults + [ps[i]];
        } else if input.identity.Present() {
          match WorkloadMatches(ps[i].selector, PodLabelsOf(input.identity.podLabels), input.identity.serviceAccount)
          case Err(_) =>
            FirstFaultStops(WorkloadFault(input.identity), ps, i + 1);
            return Err(BadWorkloadSelector(ps[i].namespace, ps[i].name));
          case Ok(applies) =>
            if applies {
              wlMatched := wlMatched + [ps[i]];
            }
        }
      }
      assert ps[..|ps|] == ps;
      return Ok((nsDefaults, wlMatched));
    }

    method FoldClusterPolicies(ps: seq<ClusterTokenPolicy>) returns (sourceSet: set<string>)
      requires Folded([]) && cluster.rules == []
      modifies this
      ensures Folded(ClusterLayersOf(ps)) && sourceSet == SourceSet(ClusterLayersOf(ps))
      ensures cluster == Tier(old(cluster.name), Rules(ClusterLayersOf(ps))) && ns == old(ns) && wl == old(wl)
    {
      sourceSet := {};
      ghost var c := ClusterLayersOf(ps);
      for i := 0 to |ps|
        invariant Folded(c[..i]) && sourceSet == SourceSet(c[..i])
        invariant cluster == Tier(old(cluster.name), Rules(c[..i])) && ns == old(ns) && wl == old(wl)
      {
        assert c[..i + 1] == c[..i] + [ClusterLayer(ps[i])];
        sourceSet := ApplyClusterPolicy(ps[i], sourceSet, c[..i]);
      }
      assert c[..|ps|] == c;
    }

    method FoldPolicies(workload: bool, ps: seq<TokenPolicy>, sourceSet: set<string>, ghost layers: seq<Layer>)
      returns (sourceSet': set<string>)
      requires Folded(layers) && sourceSet == SourceSet(layers)
      requires (if workload then wl else ns).rules == []
      modifies this
      ensures Folded(layers + PolicyLayersOf(ps)) && sourceSet' == SourceSet(layers + PolicyLayersOf(ps))
      ensures ns == if workload then old(ns) else Tier(old(ns.name), Rules(PolicyLayersOf(ps)))
      ensures wl == if workload then Tier(old(wl.name), Rules(PolicyLayersOf(ps))) else old(wl)
      ensures cluster == old(cluster)
    {
      sourceSet' := sourceSet;
      ghost var n := PolicyLayersOf(ps);
      assert layers + n[..0] == layers;
      for i := 0 to |ps|
        invariant Folded(layers + n[..i]) && sourceSet' == SourceSet(layers + n[..i])
        invariant ns == if workload then old(ns) else Tier(old(ns.name), Rules(n[..i]))
        invariant wl == if workload then Tier(old(wl.name), Rules(n[..i])) else old(wl)
        invariant cluster == old(cluster)
      {
        assert n[..i + 1] == n[..i] + [PolicyLayer(ps[i])];
        assert layers + n[..i + 1] == (layers + n[..i]) + [PolicyLayer(ps[i])];
        sourceSet' := ApplyNamespaceTier(workload, ps[i], PolicySource(ps[i].namespace, ps[i].name),
                                         sourceSet', layers + n[..i]);
      }
      assert n[..|ps|] == n;
    }

    method PublishSources(sourceSet: set<string>, ghost layers: seq<Layer>)
      requires sourceSet == SourceSet(layers)
      modifies this`sources
      ensures sources == SortStrings(SourceNames(layers))
    {
      var names := SetToSlice(sourceSet);
      SourceNamesAreSourceSet(layers);
      SortStringsBySet(names, SourceNames(layers));
      sources := SortStrings(names);
    }

    method MergeSources(sset: set<string>, ghost layers: seq<Layer>, ghost extra: seq<Layer>)
      requires sources == SortStrings(SourceNames(layers)) && sset == SourceSet(extra)
      modifies this`sources
      ensures sources == SortStrings(SourceNames(layers + extra))
    {
      SourceNamesAreSourceSet(layers);
      SortStringsAscends(SourceNames(layers));
      AscendingNoDuplicates(sources);
      var drained := SetToSlice(sset);
      for i := 0 to |drained|
        invariant NoDuplicates(sources)
        invariant forall x :: x in sources <==> x in old(sources) || x in drained[..i]
      {
        sources := AppendUnique(sources, drained[i]);
      }
      MergedNames(sources, layers, extra);
      sources := SortStrings(sources);
    }

    method Conclude(anyPolicy: bool, sourceSet: set<string>, ghost c: seq<Layer>, ghost n: seq<Layer>,
                    ghost w: seq<Layer>)
      requires Folded(c + n + w) && sourceSet == SourceSet(c + n + w)
      requires anyPolicy <==> |c| + |n| + |w| > 0
      requires cluster == Tier("cluster", Rules(c)) && ns == Tier("namespace", Rules(n))
               && wl == Tier("workload", Rules(w))
      modifies this
      ensures View() == Assemble(c, n, w)
    {
      modelGoverned := |cluster.rules| > 0 || |ns.rules| > 0 || |wl.rules| > 0;
      governed := anyPolicy;
      PublishSources(sourceSet, c + n + w);
    }

    /** The three loops over the sorted policies and the closing assignments. */
    method Combine(matched: seq<ClusterTokenPolicy>, nsDefaults: seq<TokenPolicy>, wlMatched: seq<TokenPolicy>)
      requires Folded([])
      modifies this
      ensures View() == Assemble(ClusterLayersOf(matched), PolicyLayersOf(nsDefaults), PolicyLayersOf(wlMatched))
    {
      ghost var c, n, w := ClusterLayersOf(matched), PolicyLayersOf(nsDefaults), PolicyLayersOf(wlMatched);
      cluster := Tier("cluster", []);
      var sourceSet := FoldClusterPolicies(matched);
      ns := Tier("namespace", []);
      sourceSet := FoldPolicies(false, nsDefaults, sourceSet, c);
      wl := Tier("workload", []);
      sourceSet := FoldPolicies(true, wlMatched, sourceSet, c + n);
      Conclude(|matched| > 0 || |nsDefaults| > 0 || |wlMatched| > 0, sourceSet, c, n, w);
    }

    static method Resolve(input: ResolveInput) returns (r: Result<Effective, ResolveError>)
      ensures match r
              case Ok(eff) => fresh(eff) && Resolver.Resolve(input) == Ok(eff.View())
              case Err(e) => Resolver.Resolve(input) == Err(e)
    {
      var selected := SelectClusterPolicies(input);
      if selected.Err? {
        return Err(selected.error);
      }
      var partition := SelectPolicies(input);
      if partition.Err? {
        return Err(partition.error);
      }
      var matched := Sort(ClusterKey, selected.value);
      var nsDefaults, wlMatched := Sort(PolicyKey, partition.value.0), Sort(PolicyKey, partition.value.1);
      var eff := new Effective();
      eff.Combine(matched, nsDefaults, wlMatched);
      return Ok(eff);
    }

    /** The tail of ResolveForPolicy: the target joins the resolved base as its workload tier. */
    method AddTarget(target: TokenPolicy, ghost c: seq<Layer>, ghost n: seq<Layer>)
      requires View() == Assemble(c, n, [])
      modifies this
      ensures View() == Assemble(c, n, [PolicyLayer(target)])
    {
      ghost var w := [PolicyLayer(target)];
      assert c + n + [] == c + n;
      var src := PolicySource(target.namespace, target.name);
      var sset := ApplyNamespaceTier(true, target, src, {}, c + n);
      wl := Tier("workload", wl.rules);
      assert w[..0] == [];
      assert wl.rules == Rules(w);
      modelGoverned := |cluster.rules| > 0 || |ns.rules| > 0 || |wl.rules| > 0;
      governed := true;
      MergeSources(sset, c + n, w);
    }

    static method ResolveForPolicy(clusterPolicies: seq<ClusterTokenPolicy>, namespacePolicies: seq<TokenPolicy>,
                                   nsLabels: Labels, target: TokenPolicy)
      returns (r: Result<Effective, ResolveError>)
      ensures match r
              case Ok(eff) =>
                fresh(eff) &&
                Resolver.ResolveForPolicy(clusterPolicies, namespacePolicies, nsLabels, target) == Ok(eff.View())
              case Err(e) =>
                Resolver.ResolveForPolicy(clusterPolicies, namespacePolicies, nsLabels, target) == Err(e)
    {
      var rest: seq<TokenPolicy> := [];
      for i := 0 to |namespacePolicies|
        invariant rest == Filter(OtherThan(target), namespacePolicies[..i])
      {
        assert namespacePolicies[..i + 1][..i] == namespacePolicies[..i];
        var p := namespacePolicies[i];
        if !(p.namespace == target.namespace && p.name == target.name) {
          rest := rest + [p];
        }
      }
      assert namespacePolicies[..|namespacePolicies|] == namespacePolicies;
      if IsEmpty(target.selector) {
        r := Resolve(BaseInput(clusterPolicies, rest + [target], target.namespace, nsLabels));
        return;
      }
      var input := BaseInput(clusterPolicies, rest, target.namespace, nsLabels);
      r := Resolve(input);
      if r.Err? {
        return;
      }
      NoIdentityNoWorkloads(input.identity, input.namespacePolicies);
      r.value.AddTarget(target, ClusterChain(input), DefaultChain(input));
    }

    method EffectiveModels() returns (out: seq<EffectiveModel>)
      ensures out == Resolver.EffectiveModels(View())
    {
      var seen: map<ModelKey, string>, order: seq<ModelKey> := map[], [];
      seen, order := Collect(cluster.rules, seen, order, []);
      assert [] + cluster.rules == cluster.rules;
      seen, order := Collect(ns.rules, seen, order, cluster.rules);
      seen, order := Collect(wl.rules, seen, order, cluster.rules + ns.rules);
      out := Enumerate(View(), seen, order);
    }

    static method Enumerate(e: Resolved, seen: map<ModelKey, string>, order: seq<ModelKey>)
      returns (out: seq<EffectiveModel>)
      requires forall i :: 0 <= i < |order| ==> order[i] in seen
      ensures |out| == |order|
      ensures forall i :: 0 <= i < |out| ==> out[i] == EffectiveEntry(e, order[i], seen[order[i]])
    {
      out := [];
      for i := 0 to |order|
        invariant |out| == i
        invariant forall j :: 0 <= j < i ==> out[j] == EffectiveEntry(e, order[j], seen[order[j]])
      {
        var d := Resolver.Permit(e, order[i].provider, order[i].model);
        var action := if d.allowed then ActionAllow else ActionDeny;
        out := out + [EffectiveModel(order[i].provider, order[i].model, action, d.credential, seen[order[i]])];
      }
    }

    /** Effective.Permit reads the resolved fields and nothing else. */
    function Permit(provider: string, model: string): ModelDecision
      reads this
    {
      Resolver.Permit(View(), provider, model)
    }
  }

  lemma {:induction false} NoIdentityNoWorkloads(id: Identity, ps: seq<TokenPolicy>)
    requires !id.Present()
    ensures Filter(WorkloadApplies(id), ps) == []
    ensures FirstFault(WorkloadFault(id), ps) == None
  {
    if ps == [] {
    } else {
      NoIdentityNoWorkloads(id, ps[..|ps| - 1]);
    }
  }

  lemma AscendingNoDuplicates(s: seq<string>)
    requires Ascending(s)
    ensures NoDuplicates(s)
  {
    forall i, j | 0 <= i < j < |s| ensures s[i] != s[j] {
      StrLessIrreflexive(s[i]);
    }
  }
}
