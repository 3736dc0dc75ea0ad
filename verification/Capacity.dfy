/** The supply/demand rollup of a credential: int64 sums over the policies that bind it. */
module Capacity {
  import opened Wrappers
  import opened Strings
  import opened Sorting
  import opened FirstOccurrences
  import opened Api
  import opened Quotas
  import opened Resolver

  // ---- int64 ----

  const MAX_INT64 := 0x7FFF_FFFF_FFFF_FFFF

  predicate Fits(x: int) { -MAX_INT64 - 1 <= x <= MAX_INT64 }

  /** Two's-complement wrap-around. */
  function Wrap(x: int): (r: int)
    ensures Fits(r)
    ensures Fits(x) <==> r == x
  {
    (x + MAX_INT64 + 1) % (2 * (MAX_INT64 + 1)) - (MAX_INT64 + 1)
  }

  lemma WrapAdd(x: int, y: int)
    ensures Wrap(Wrap(x) + y) == Wrap(x + y)
  {
  }

  // ---- Field-wise operations ----

  type FieldOp = (Option<int>, Option<int>) -> Option<int>

  function NormalizeQuota(q: Option<TokenQuota>): Option<TokenQuota> {
    if q == Some(TokenQuota(None, None, None, None)) then None else q
  }

  function OrEmpty(q: Option<TokenQuota>): TokenQuota {
    match q case None => TokenQuota(None, None, None, None) case Some(t) => t
  }

  function MapQuota2(a: Option<TokenQuota>, b: Option<TokenQuota>, op: FieldOp): Option<TokenQuota> {
    var x, y := OrEmpty(a), OrEmpty(b);
    NormalizeQuota(Some(TokenQuota(
      op(x.tokensPerMinute, y.tokensPerMinute), op(x.requestsPerMinute, y.requestsPerMinute),
      op(x.tokensPerDay, y.tokensPerDay), op(x.tokensPerMonth, y.tokensPerMonth))))
  }

  function AddField(x: Option<int>, y: Option<int>): Option<int> {
    match (x, y)
    case (None, _) => y
    case (_, None) => x
    case (Some(a), Some(b)) => Some(Wrap(a + b))
  }

  function AddQuota(a: Option<TokenQuota>, b: Option<TokenQuota>): Option<TokenQuota> { MapQuota2(a, b, AddField) }

  function AvailableField(capacity: Option<int>, committed: Option<int>): Option<int> {
    match capacity
    case None => None
    case Some(c) =>
      var v := Wrap(c - (match committed case None => 0 case Some(u) => u));
      Some(if v < 0 then 0 else v)
  }

  function AvailableQuota(capacity: Option<TokenQuota>, committed: Option<TokenQuota>): Option<TokenQuota> {
    MapQuota2(capacity, committed, AvailableField)
  }

  predicate Over(capacity: Option<int>, committed: Option<int>) {
    capacity.Some? && committed.Some? && committed.value > capacity.value
  }

  predicate Oversubscribed(capacity: Option<TokenQuota>, committed: Option<TokenQuota>) {
    capacity.Some? && committed.Some? &&
    var c, a := capacity.value, committed.value;
    Over(c.tokensPerMinute, a.tokensPerMinute) || Over(c.requestsPerMinute, a.requestsPerMinute) ||
    Over(c.tokensPerDay, a.tokensPerDay) || Over(c.tokensPerMonth, a.tokensPerMonth)
  }

  /** Through all the nil normalisation, every window is the operation applied to that window. */
  lemma MapQuota2PerWindow(a: Option<TokenQuota>, b: Option<TokenQuota>, op: FieldOp, w: Window)
    ensures Limit(MapQuota2(a, b, op), w) == op(Limit(a, w), Limit(b, w))
  {
    match w { case TokensPerMinute => case RequestsPerMinute => case TokensPerDay => case TokensPerMonth => }
  }

  // ---- Which policies bind a credential ----

  /** Deny rules that carry a credentialRef count too. */
  predicate ModelsReference(models: seq<ModelPermission>, name: string) {
    exists i :: 0 <= i < |models| && models[i].credentialRef == Some(name)
  }

  function ClusterBinds(name: string): ClusterTokenPolicy -> bool {
    (p: ClusterTokenPolicy) => p.defaultCredentialRef == Some(name) || ModelsReference(p.models, name)
  }

  function PolicyBinds(name: string): TokenPolicy -> bool {
    (p: TokenPolicy) => ModelsReference(p.models, name)
  }

  datatype Reference = Reference(key: string, quota: Option<TokenQuota>)

  function ClusterReference(p: ClusterTokenPolicy): Reference { Reference(ClusterSource(p.name), p.quota) }

  function PolicyReference(p: TokenPolicy): Reference { Reference(PolicySource(p.namespace, p.name), p.quota) }

  function ReferenceKey(r: Reference): string { r.key }

  function References(cps: seq<ClusterTokenPolicy>, tps: seq<TokenPolicy>, name: string): seq<Reference> {
    AsReferences(ClusterReference, Filter(ClusterBinds(name), cps))
      + AsReferences(PolicyReference, Filter(PolicyBinds(name), tps))
  }

  function AsReferences<T>(f: T -> Reference, s: seq<T>): seq<Reference> {
    seq(|s|, i requires 0 <= i < |s| => f(s[i]))
  }

  /** The references that count: each key once. */
  function Counted(cps: seq<ClusterTokenPolicy>, tps: seq<TokenPolicy>, name: string): seq<Reference> {
    Firsts(ReferenceKey, References(cps, tps, name))
  }

  // ---- The exact, unbounded total ----

  function Amount(q: Option<int>): int { match q case None => 0 case Some(v) => v }

  function Total(refs: seq<Reference>, w: Window): int {
    if refs == [] then 0 else Total(refs[..|refs| - 1], w) + Amount(Limit(refs[|refs| - 1].quota, w))
  }

  ghost predicate SomeSets(refs: seq<Reference>, w: Window) {
    exists i :: 0 <= i < |refs| && Limit(refs[i].quota, w).Some?
  }

  /** What the rollup reports for a window: nothing if no policy limits it, else the wrapped total. */
  ghost function Reported(refs: seq<Reference>, w: Window): Option<int> {
    if SomeSets(refs, w) then Some(Wrap(Total(refs, w))) else None
  }

  ghost predicate Sums(q: Option<TokenQuota>, refs: seq<Reference>) {
    (forall w: Window :: Limit(q, w) == Reported(refs, w)) && q != Some(TokenQuota(None, None, None, None))
  }

  lemma QuotaByWindows(a: Option<TokenQuota>, b: Option<TokenQuota>)
    requires forall w: Window :: Limit(a, w) == Limit(b, w)
    requires a != Some(TokenQuota(None, None, None, None)) && b != Some(TokenQuota(None, None, None, None))
    ensures a == b
  {
    assert Limit(a, TokensPerMinute) == Limit(b, TokensPerMinute);
    assert Limit(a, RequestsPerMinute) == Limit(b, RequestsPerMinute);
    assert Limit(a, TokensPerDay) == Limit(b, TokensPerDay);
    assert Limit(a, TokensPerMonth) == Limit(b, TokensPerMonth);
  }

  /** Quotas in API objects are int64 fields. */
  ghost predicate Int64Quota(q: Option<TokenQuota>) {
    forall w: Window :: Limit(q, w).Some? ==> Fits(Limit(q, w).value)
  }

  ghost predicate Int64References(refs: seq<Reference>) {
    forall i :: 0 <= i < |refs| ==> Int64Quota(refs[i].quota)
  }

  lemma {:induction false} TotalOfUnset(refs: seq<Reference>, w: Window)
    requires !SomeSets(refs, w)
    ensures Total(refs, w) == 0
  {
    if refs == [] {
    } else {
      var n := |refs| - 1;
      assert forall i :: 0 <= i < n ==> refs[..n][i] == refs[i];
      TotalOfUnset(refs[..n], w);
    }
  }

  lemma AddStep(q: Option<TokenQuota>, refs: seq<Reference>, r: Reference)
    requires Sums(q, refs) && Int64Quota(r.quota)
    ensures Sums(AddQuota(q, r.quota), refs + [r])
  {
    var more := refs + [r];
    forall w: Window ensures Limit(AddQuota(q, r.quota), w) == Reported(more, w) {
      MapQuota2PerWindow(q, r.quota, AddField, w);
      assert more[..|more| - 1] == refs;
      WrapAdd(Total(refs, w), Amount(Limit(r.quota, w)));
      assert Limit(q, w) == Reported(refs, w);
      if SomeSets(refs, w) {
        var i :| 0 <= i < |refs| && Limit(refs[i].quota, w).Some?;
        assert more[i] == refs[i];
      } else {
        TotalOfUnset(refs, w);
        assert forall i :: 0 <= i < |refs| ==> more[i] == refs[i];
        assert more[|refs|] == r;
      }
    }
  }

  lemma NothingToSum()
    ensures Sums(None, [])
  {
    forall w: Window ensures Reported([], w) == None {
      assert !SomeSets([], w);
    }
  }

  // ---- referencingPolicies ----

  /** The two loops, which share the set of keys already counted. */
  method CountReferences(refs: seq<Reference>) returns (keys: set<string>, committed: Option<TokenQuota>)
    requires Int64References(refs)
    ensures keys == KeySet(ReferenceKey, refs)
    ensures Sums(committed, Firsts(ReferenceKey, refs))
  {
    keys := {};
    committed := Some(TokenQuota(None, None, None, None));
    for i := 0 to |refs|
      invariant keys == KeySet(ReferenceKey, refs[..i])
      invariant Sums(NormalizeQuota(committed), Firsts(ReferenceKey, refs[..i]))
    {
      assert refs[..i + 1] == refs[..i] + [refs[i]];
      FirstsAppend(ReferenceKey, refs[..i], refs[i]);
      if refs[i].key !in keys {
        keys := keys + {refs[i].key};
        AddStep(NormalizeQuota(committed), Firsts(ReferenceKey, refs[..i]), refs[i]);
        committed := AddQuota(committed, refs[i].quota);
      }
    }
    assert refs[..|refs|] == refs;
    committed := NormalizeQuota(committed);
  }

  method ReferencingPolicies(cps: seq<ClusterTokenPolicy>, tps: seq<TokenPolicy>, name: string)
    returns (out: seq<string>, committed: Option<TokenQuota>)
    requires Int64References(References(cps, tps, name))
    ensures Ascending(out)
    ensures forall k :: k in out <==> exists r :: r in References(cps, tps, name) && r.key == k
    ensures Sums(committed, Counted(cps, tps, name))
  {
    var refs := References(cps, tps, name);
    var keys;
    keys, committed := CountReferences(refs);
    out := [];
    var rest := keys;
    while rest != {}
      invariant rest <= keys && NoDuplicates(out)
      invariant forall k :: k in out <==> k in keys - rest
      decreases rest
    {
      var k :| k in rest;
      assert k !in out;
      rest := rest - {k};
      out := out + [k];
    }
    SortStringsAscends(out);
    out := SortStrings(out);
  }

  // ---- What the rollup is worth ----

  lemma {:induction false} TotalConcat(a: seq<Reference>, b: seq<Reference>, w: Window)
    ensures Total(a + b, w) == Total(a, w) + Total(b, w)
  {
    if b == [] {
      assert a + b == a;
    } else {
      assert (a + b)[..|a + b| - 1] == a + b[..|b| - 1];
      TotalConcat(a, b[..|b| - 1], w);
    }
  }

  lemma TotalWithout(s: seq<Reference>, k: nat, w: Window)
    requires k < |s|
    ensures Total(s, w) == Total(s[..k] + s[k + 1..], w) + Amount(Limit(s[k].quota, w))
  {
    assert s == s[..k + 1] + s[k + 1..] && s[..k + 1][..k] == s[..k];
    TotalConcat(s[..k + 1], s[k + 1..], w);
    TotalConcat(s[..k], s[k + 1..], w);
  }

  lemma {:induction false} TotalForgetsOrder(a: seq<Reference>, b: seq<Reference>, w: Window)
    requires multiset(a) == multiset(b)
    ensures Total(a, w) == Total(b, w)
  {
    if a == [] {
      assert |multiset(b)| == 0;
    } else {
      var n, x := |a| - 1, a[|a| - 1];
      assert x in multiset(b);
      var k :| 0 <= k < |b| && b[k] == x;
      var rest := b[..k] + b[k + 1..];
      RestIsPermutation(a, b, k);
      TotalForgetsOrder(a[..n], rest, w);
      TotalWithout(b, k, w);
    }
  }

  lemma SomeSetsForgetsOrder(a: seq<Reference>, b: seq<Reference>, w: Window)
    requires multiset(a) == multiset(b) && SomeSets(a, w)
    ensures SomeSets(b, w)
  {
    var i :| 0 <= i < |a| && Limit(a[i].quota, w).Some?;
    assert a[i] in multiset(b);
  }

  /** Over references with distinct keys, the rollup is one value in any list order. */
  lemma RollupForgetsOrder(a: seq<Reference>, b: seq<Reference>, qa: Option<TokenQuota>, qb: Option<TokenQuota>)
    requires multiset(a) == multiset(b) && Sums(qa, a) && Sums(qb, b)
    ensures qa == qb
  {
    forall w: Window ensures Limit(qa, w) == Limit(qb, w) {
      TotalForgetsOrder(a, b, w);
      assert SomeSets(a, w) <==> SomeSets(b, w) by {
        if SomeSets(a, w) { SomeSetsForgetsOrder(a, b, w); }
        if SomeSets(b, w) { SomeSetsForgetsOrder(b, a, w); }
      }
    }
    QuotaByWindows(qa, qb);
  }

  /** A window's reported sum is the true sum exactly when the true sum is an int64. */
  lemma RollupExact(refs: seq<Reference>, q: Option<TokenQuota>, w: Window)
    requires Sums(q, refs)
    ensures Amount(Limit(q, w)) == Total(refs, w) <==> Fits(Total(refs, w))
    ensures Limit(q, w).Some? <==> SomeSets(refs, w)
  {
    assert Limit(q, w) == Reported(refs, w);
    if !SomeSets(refs, w) {
      TotalOfUnset(refs, w);
    }
  }

  /** Object names are unique in their scope, and no namespace contains a slash. */
  ghost predicate UniqueObjects(cps: seq<ClusterTokenPolicy>, tps: seq<TokenPolicy>) {
    && (forall i, j :: 0 <= i < j < |cps| ==> cps[i].name != cps[j].name)
    && (forall i, j :: 0 <= i < j < |tps| ==> !(tps[i].namespace == tps[j].namespace && tps[i].name == tps[j].name))
    && (forall i :: 0 <= i < |tps| ==> '/' !in tps[i].namespace)
  }

  lemma SourcesInjective(ns: string, name: string, ns': string, name': string)
    requires '/' !in ns && '/' !in ns' && PolicySource(ns, name) == PolicySource(ns', name')
    ensures ns == ns' && name == name'
  {
    var s, s' := ns + "/" + name, ns' + "/" + name';
    assert PolicySource(ns, name) == "TokenPolicy/" + s && PolicySource(ns', name') == "TokenPolicy/" + s';
    assert s == PolicySource(ns, name)[12..] && s' == PolicySource(ns', name')[12..];
    CutFinds(ns, name, '/');
    CutFinds(ns', name', '/');
  }

  /** For unique objects every referencing policy counts, once. */
  lemma EveryReferenceCounts(cps: seq<ClusterTokenPolicy>, tps: seq<TokenPolicy>, name: string)
    requires UniqueObjects(cps, tps)
    ensures Counted(cps, tps, name) == References(cps, tps, name)
  {
    var refs := References(cps, tps, name);
    var c, t := Filter(ClusterBinds(name), cps), Filter(PolicyBinds(name), tps);
    FilterIndices(ClusterBinds(name), cps);
    FilterIndices(PolicyBinds(name), tps);
    var atC, atT := KeptAt(ClusterBinds(name), cps), KeptAt(PolicyBinds(name), tps);
    assert forall i :: 0 <= i < |refs| ==>
      refs[i] == if i < |c| then ClusterReference(c[i]) else PolicyReference(t[i - |c|]);
    forall i, j | 0 <= i < j < |refs| ensures refs[i].key != refs[j].key {
      if j < |c| {
        assert atC[i] < atC[j];
        assert refs[i].key[19..] == c[i].name && refs[j].key[19..] == c[j].name;
      } else if i < |c| {
        assert refs[i].key[0] == 'C' && refs[j].key[0] == 'T';
      } else {
        var p, q := t[i - |c|], t[j - |c|];
        assert atT[i - |c|] < atT[j - |c|];
        if refs[i].key == refs[j].key {
          SourcesInjective(p.namespace, p.name, q.namespace, q.name);
        }
      }
    }
    FirstsOfDistinct(refs);
  }

  lemma {:induction false} FirstsOfDistinct(refs: seq<Reference>)
    requires forall i, j :: 0 <= i < j < |refs| ==> refs[i].key != refs[j].key
    ensures Firsts(ReferenceKey, refs) == refs
  {
    if refs == [] {
    } else {
      FirstsOfDistinct(refs[..|refs| - 1]);
    }
  }

  lemma {:induction false} AsReferencesPermutes<T>(f: T -> Reference, a: seq<T>, b: seq<T>)
    requires multiset(a) == multiset(b)
    ensures multiset(AsReferences(f, a)) == multiset(AsReferences(f, b))
  {
    if a == [] {
      assert |multiset(b)| == 0;
    } else {
      var n, x := |a| - 1, a[|a| - 1];
      assert x in multiset(b);
      var k :| 0 <= k < |b| && b[k] == x;
      var rest := b[..k] + b[k + 1..];
      RestIsPermutation(a, b, k);
      AsReferencesPermutes(f, a[..n], rest);
      assert AsReferences(f, a) == AsReferences(f, a[..n]) + [f(x)];
      assert AsReferences(f, rest) == AsReferences(f, b[..k]) + AsReferences(f, b[k + 1..]);
      assert AsReferences(f, b) == AsReferences(f, b[..k]) + [f(x)] + AsReferences(f, b[k + 1..]);
    }
  }

  /** The rollup of unique objects is the same in whatever order the two lists arrive. */
  lemma RollupOfListsForgetsOrder(cps: seq<ClusterTokenPolicy>, tps: seq<TokenPolicy>, name: string,
                                  q: Option<TokenQuota>,
                                  cps': seq<ClusterTokenPolicy>, tps': seq<TokenPolicy>, q': Option<TokenQuota>)
    requires UniqueObjects(cps, tps) && UniqueObjects(cps', tps')
    requires multiset(cps) == multiset(cps') && multiset(tps) == multiset(tps')
    requires Sums(q, Counted(cps, tps, name)) && Sums(q', Counted(cps', tps', name))
    ensures q == q'
  {
    EveryReferenceCounts(cps, tps, name);
    EveryReferenceCounts(cps', tps', name);
    FilterPermutes(ClusterBinds(name), cps, cps');
    FilterPermutes(PolicyBinds(name), tps, tps');
    AsReferencesPermutes(ClusterReference, Filter(ClusterBinds(name), cps), Filter(ClusterBinds(name), cps'));
    AsReferencesPermutes(PolicyReference, Filter(PolicyBinds(name), tps), Filter(PolicyBinds(name), tps'));
    RollupForgetsOrder(References(cps, tps, name), References(cps', tps', name), q, q');
  }

  // ---- Deny rules count ----

  /** As the comment on the rollup has it: an Allow rule names the credential. */
  predicate AllowNames(models: seq<ModelPermission>, name: string) {
    exists i ::
      0 <= i < |models| && NormAction(models[i].action) == ActionAllow && models[i].credentialRef == Some(name)
  }

  function ClusterBindsByAllow(name: string): ClusterTokenPolicy -> bool {
    (p: ClusterTokenPolicy) => p.defaultCredentialRef == Some(name) || AllowNames(p.models, name)
  }

  function PolicyBindsByAllow(name: string): TokenPolicy -> bool {
    (p: TokenPolicy) => AllowNames(p.models, name)
  }

  function AllowReferences(cps: seq<ClusterTokenPolicy>, tps: seq<TokenPolicy>, name: string): seq<Reference> {
    AsReferences(ClusterReference, Filter(ClusterBindsByAllow(name), cps))
    + AsReferences(PolicyReference, Filter(PolicyBindsByAllow(name), tps))
  }

  lemma {:induction false} FilterShrinks<T>(p: T -> bool, q: T -> bool, s: seq<T>)
    requires forall i :: 0 <= i < |s| && p(s[i]) ==> q(s[i])
    ensures |Filter(p, s)| <= |Filter(q, s)|
    ensures |Filter(p, s)| == |Filter(q, s)| ==> forall i :: 0 <= i < |s| && q(s[i]) ==> p(s[i])
    ensures (forall i :: 0 <= i < |s| && q(s[i]) ==> p(s[i])) ==> Filter(p, s) == Filter(q, s)
  {
    if s == [] {
    } else {
      var n := |s| - 1;
      FilterShrinks(p, q, s[..n]);
      forall i | 0 <= i < n && |Filter(p, s)| == |Filter(q, s)| && q(s[i]) ensures p(s[i]) {
        assert s[..n][i] == s[i];
      }
    }
  }

  /**
   Deny rules that name the credential count as well, against the comment on the rollup: what is counted is
   what the comment says exactly when no policy binds the credential through Deny rules alone.
   */
  lemma CountsAllowRulesExactly(cps: seq<ClusterTokenPolicy>, tps: seq<TokenPolicy>, name: string)
    requires UniqueObjects(cps, tps)
    ensures Counted(cps, tps, name) == AllowReferences(cps, tps, name) <==>
            (forall i :: 0 <= i < |cps| && ClusterBinds(name)(cps[i]) ==> ClusterBindsByAllow(name)(cps[i]))
            && (forall i :: 0 <= i < |tps| && PolicyBinds(name)(tps[i]) ==> PolicyBindsByAllow(name)(tps[i]))
  {
    EveryReferenceCounts(cps, tps, name);
    FilterShrinks(ClusterBindsByAllow(name), ClusterBinds(name), cps);
    FilterShrinks(PolicyBindsByAllow(name), PolicyBinds(name), tps);
  }

  lemma ReferencesOfOne(tp: TokenPolicy, name: string)
    ensures References([], [tp], name) == if PolicyBinds(name)(tp) then [PolicyReference(tp)] else []
    ensures AllowReferences([], [tp], name) == if PolicyBindsByAllow(name)(tp) then [PolicyReference(tp)] else []
  {
    FilterOne(PolicyBinds(name), tp);
    FilterOne(PolicyBindsByAllow(name), tp);
  }

  lemma OnlyDenyRule(tp: TokenPolicy, deny: ModelPermission, name: string)
    requires tp.models == [deny] && deny.action == ActionDeny && deny.credentialRef == Some(name)
             && '/' !in tp.namespace
    ensures AllowReferences([], [tp], name) == [] && Counted([], [tp], name) == [PolicyReference(tp)]
  {
    assert tp.models[0] == deny;
    ReferencesOfOne(tp, name);
    EveryReferenceCounts([], [tp], name);
  }

  /** A policy whose only rule is a Deny that names the credential adds its quota to the demand. */
  lemma DenyRuleCounts() returns (tp: TokenPolicy, name: string)
    ensures forall i :: 0 <= i < |tp.models| ==> tp.models[i].action == ActionDeny
    ensures AllowReferences([], [tp], name) == [] && Counted([], [tp], name) == [PolicyReference(tp)]
    ensures Limit(tp.quota, TokensPerDay) == Some(1000)
  {
    name := "openai";
    var deny := ModelPermission("openai", "*", ActionDeny, Some(name));
    var quota := Some(TokenQuota(None, None, Some(1000), None));
    tp := TokenPolicy("dev", "ban", None, [deny], quota, EnforcementUnset, 0, None);
    OnlyDenyRule(tp, deny, name);
  }

  // ---- Conservation ----

  /**
   For a declared, nonnegative capacity: available plus the part of the allocation the capacity covers is
   the capacity, exactly when capacity minus allocation does not exceed int64.
   */
  lemma ConservationExactly(capacity: Option<TokenQuota>, committed: Option<TokenQuota>, w: Window)
    requires Int64Quota(capacity) && Int64Quota(committed)
    requires Limit(capacity, w).Some? && Limit(capacity, w).value >= 0
    ensures var c, a := Limit(capacity, w).value, Amount(Limit(committed, w));
            var available := Limit(AvailableQuota(capacity, committed), w);
            && available.Some? && available.value >= 0
            && (available.value + (if a < c then a else c) == c <==> c - a <= MAX_INT64)
  {
    MapQuota2PerWindow(capacity, committed, AvailableField, w);
  }

  /** Beyond int64 it fails: a wrapped, negative allocation against the largest capacity leaves nothing available. */
  lemma ConservationFails() returns (capacity: Option<TokenQuota>, committed: Option<TokenQuota>)
    ensures Limit(capacity, TokensPerDay) == Some(MAX_INT64) && Limit(committed, TokensPerDay) == Some(-1)
    ensures Limit(AvailableQuota(capacity, committed), TokensPerDay) == Some(0)
  {
    capacity := Some(TokenQuota(None, None, Some(MAX_INT64), None));
    committed := Some(TokenQuota(None, None, Some(-1), None));
    MapQuota2PerWindow(capacity, committed, AvailableField, TokensPerDay);
  }

  /** A window without a declared capacity has no availability. */
  lemma AvailableOnlyWhereDeclared(capacity: Option<TokenQuota>, committed: Option<TokenQuota>, w: Window)
    ensures Limit(AvailableQuota(capacity, committed), w).Some? <==> Limit(capacity, w).Some?
  {
    MapQuota2PerWindow(capacity, committed, AvailableField, w);
  }

  /** Oversubscribed says exactly that in some declared window availability and allocation exceed capacity. */
  lemma OversubscribedExactly(capacity: Option<TokenQuota>, committed: Option<TokenQuota>)
    requires Int64Quota(capacity) && Int64Quota(committed)
    requires forall w: Window :: Limit(capacity, w).Some? ==> Limit(capacity, w).value >= 0
    ensures Oversubscribed(capacity, committed) <==>
            exists w: Window :: Limit(capacity, w).Some?
              && Amount(Limit(AvailableQuota(capacity, committed), w))
                   + Amount(Limit(committed, w)) > Limit(capacity, w).value
  {
    forall w: Window
      ensures Over(Limit(capacity, w), Limit(committed, w)) <==>
              (Limit(capacity, w).Some?
               && Amount(Limit(AvailableQuota(capacity, committed), w))
                    + Amount(Limit(committed, w)) > Limit(capacity, w).value)
    {
      MapQuota2PerWindow(capacity, committed, AvailableField, w);
    }
    assert Oversubscribed(capacity, committed) <==>
           exists w: Window :: Over(Limit(capacity, w), Limit(committed, w)) by {
      OverSomewhere(capacity, committed);
    }
  }

  lemma OverSomewhere(capacity: Option<TokenQuota>, committed: Option<TokenQuota>)
    ensures Oversubscribed(capacity, committed) <==> exists w: Window :: Over(Limit(capacity, w), Limit(committed, w))
  {
    if Oversubscribed(capacity, committed) {
      assert Over(Limit(capacity, TokensPerMinute), Limit(committed, TokensPerMinute))
          || Over(Limit(capacity, RequestsPerMinute), Limit(committed, RequestsPerMinute))
          || Over(Limit(capacity, TokensPerDay), Limit(committed, TokensPerDay))
          || Over(Limit(capacity, TokensPerMonth), Limit(committed, TokensPerMonth));
    }
    if w: Window :| Over(Limit(capacity, w), Limit(committed, w)) {
      match w { case TokensPerMinute => case RequestsPerMinute => case TokensPerDay => case TokensPerMonth => }
    }
  }

  /** The true total of a declared window exceeds its capacity. */
  ghost predicate Exceeds(refs: seq<Reference>, capacity: Option<TokenQuota>, w: Window) {
    Limit(capacity, w).Some? && SomeSets(refs, w) && Total(refs, w) > Limit(capacity, w).value
  }

  /** The total of a declared window still exceeds its capacity after wrapping around. */
  ghost predicate WrapsAbove(refs: seq<Reference>, capacity: Option<TokenQuota>, w: Window) {
    Limit(capacity, w).Some? && SomeSets(refs, w) && Wrap(Total(refs, w)) > Limit(capacity, w).value
  }

  lemma OverIsWrapsAbove(refs: seq<Reference>, capacity: Option<TokenQuota>, committed: Option<TokenQuota>, w: Window)
    requires Sums(committed, refs)
    ensures Over(Limit(capacity, w), Limit(committed, w)) <==> WrapsAbove(refs, capacity, w)
  {
    assert Limit(committed, w) == Reported(refs, w);
  }

  /** When the true total of every declared window fits, the verdict is the true one. */
  lemma OversubscribedIsTrue(refs: seq<Reference>, capacity: Option<TokenQuota>, committed: Option<TokenQuota>)
    requires Sums(committed, refs) && forall w: Window :: Limit(capacity, w).Some? ==> Fits(Total(refs, w))
    ensures Oversubscribed(capacity, committed) <==> exists w: Window :: Exceeds(refs, capacity, w)
  {
    OverSomewhere(capacity, committed);
    forall w: Window ensures Over(Limit(capacity, w), Limit(committed, w)) <==> Exceeds(refs, capacity, w) {
      OverIsWrapsAbove(refs, capacity, committed, w);
    }
  }

  /** As the API server admits quotas: no limit is negative. */
  ghost predicate NonNegative(q: Option<TokenQuota>) {
    forall w: Window :: Limit(q, w).Some? ==> Limit(q, w).value >= 0
  }

  lemma {:induction false} TotalNonNegative(refs: seq<Reference>, w: Window)
    requires forall i :: 0 <= i < |refs| ==> NonNegative(refs[i].quota)
    ensures Total(refs, w) >= 0
  {
    if refs == [] {
    } else {
      TotalNonNegative(refs[..|refs| - 1], w);
    }
  }

  /**
   The verdict is the true one exactly when the total of every declared window fits in int64, or some
   declared window's total exceeds its capacity even after wrapping around.
   */
  lemma OversubscribedIsTrueExactly(refs: seq<Reference>, capacity: Option<TokenQuota>, committed: Option<TokenQuota>)
    requires Sums(committed, refs) && NonNegative(capacity) && Int64Quota(capacity)
    requires forall i :: 0 <= i < |refs| ==> NonNegative(refs[i].quota)
    ensures (Oversubscribed(capacity, committed) <==> exists w: Window :: Exceeds(refs, capacity, w)) <==>
            ((forall w: Window :: Limit(capacity, w).Some? ==> Fits(Total(refs, w)))
             || exists w: Window :: WrapsAbove(refs, capacity, w))
  {
    OverSomewhere(capacity, committed);
    forall w: Window
      ensures Over(Limit(capacity, w), Limit(committed, w)) <==> WrapsAbove(refs, capacity, w)
      ensures WrapsAbove(refs, capacity, w) ==> Exceeds(refs, capacity, w)
      ensures Limit(capacity, w).Some? && !Fits(Total(refs, w)) ==> Exceeds(refs, capacity, w)
      ensures Fits(Total(refs, w)) && Exceeds(refs, capacity, w) ==> WrapsAbove(refs, capacity, w)
    {
      OverIsWrapsAbove(refs, capacity, committed, w);
      TotalNonNegative(refs, w);
      if !SomeSets(refs, w) {
        TotalOfUnset(refs, w);
      } else if !Fits(Total(refs, w)) {
        assert Total(refs, w) > MAX_INT64;
      }
    }
  }

  /** Beyond int64 it need not be: demand of 2^63 against any capacity reads as negative and within capacity. */
  lemma OverflowHidesDemand()
    returns (refs: seq<Reference>, capacity: Option<TokenQuota>, committed: Option<TokenQuota>)
    ensures Int64References(refs) && Sums(committed, refs)
    ensures Limit(capacity, TokensPerDay) == Some(1000) && Total(refs, TokensPerDay) > 1000
    ensures !Oversubscribed(capacity, committed)
  {
    var r := Reference("TokenPolicy/a/x", Some(TokenQuota(None, None, Some(MAX_INT64), None)));
    var s := Reference("TokenPolicy/b/y", Some(TokenQuota(None, None, Some(1), None)));
    refs := [r] + [s];
    capacity := Some(TokenQuota(None, None, Some(1000), None));
    assert [r][..0] == [] && [s][..0] == [];
    TotalConcat([r], [s], TokensPerDay);
    NothingToSum();
    AddStep(None, [], r);
    assert [] + [r] == [r];
    AddStep(AddQuota(None, r.quota), [r], s);
    committed := AddQuota(AddQuota(None, r.quota), s.quota);
  }
}
