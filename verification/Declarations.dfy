/** The model declarations that govern a pod: annotation parsing and the de-duplicating merge. */
module Declarations {
  import opened Wrappers
  import opened Strings
  import opened Sorting
  import opened FirstOccurrences
  import opened Api
  import Resolver

  type ModelKey = Resolver.ModelKey

  datatype Declared = Declared(provider: string, model: string, credential: string)

  // ---- parseModels ----

  /** The declaration a comma-separated token carries, if any. */
  function ParseToken(tok: string): seq<Declared> {
    var t := TrimSpace(tok);
    match Cut(t, '/')
    case None => []
    case Some((p, m)) => if p == "" || m == "" then [] else [Declared(TrimSpace(p), TrimSpace(m), "")]
  }

  function ParseTokens(toks: seq<string>): seq<Declared> {
    if toks == [] then [] else ParseTokens(toks[..|toks| - 1]) + ParseToken(toks[|toks| - 1])
  }

  function Parsed(raw: string): seq<Declared> {
    if TrimSpace(raw) == "" then [] else ParseTokens(Split(raw, ','))
  }

  method ParseModels(raw: string) returns (out: seq<Declared>)
    ensures out == Parsed(raw)
  {
    out := [];
    if TrimSpace(raw) == "" {
      return;
    }
    var toks := Split(raw, ',');
    for i := 0 to |toks|
      invariant out == ParseTokens(toks[..i])
    {
      assert toks[..i + 1][..i] == toks[..i];
      var tok := TrimSpace(toks[i]);
      if tok == "" {
        continue;
      }
      var parts := Cut(tok, '/');
      if parts.None? || parts.value.0 == "" || parts.value.1 == "" {
        continue;
      }
      out := out + [Declared(TrimSpace(parts.value.0), TrimSpace(parts.value.1), "")];
    }
    assert toks[..|toks|] == toks;
  }

  function PrintOne(d: Declared): string { d.provider + "/" + d.model }

  function Print(ds: seq<Declared>): string {
    Join(seq(|ds|, i requires 0 <= i < |ds| => PrintOne(ds[i])), ',')
  }

  ghost predicate WellFormed(d: Declared) {
    && d.provider != "" && Trimmed(d.provider) && ',' !in d.provider && '/' !in d.provider
    && d.model != "" && Trimmed(d.model) && ',' !in d.model
    && d.credential == ""
  }

  /** Trimming a string that has a non-blank character leaves something. */
  lemma {:induction false} TrimRightKeeps(s: string)
    requires s != "" && !IsSpace(s[0])
    ensures TrimRight(s) != ""
  {
    if IsSpace(s[|s| - 1]) {
      TrimRightKeeps(s[..|s| - 1]);
    }
  }

  lemma {:induction false} TrimLeftKeeps(s: string)
    requires s != "" && !IsSpace(s[|s| - 1])
    ensures TrimLeft(s) != "" && TrimLeft(s)[|TrimLeft(s)| - 1] == s[|s| - 1]
  {
    if IsSpace(s[0]) {
      TrimLeftKeeps(s[1..]);
    }
  }

  /** The emptiness test before the inner trims suffices: what a token yields is well formed. */
  lemma TokenWellFormed(tok: string)
    requires ',' !in tok
    ensures forall d :: d in ParseToken(tok) ==> WellFormed(d)
  {
    var t := TrimSpace(tok);
    TrimSpaceTrims(tok);
    if ParseToken(tok) != [] {
      var (p, m) := Cut(t, '/').value;
      assert p[0] == t[0] && m[|m| - 1] == t[|t| - 1];
      TrimRightKeeps(p);
      TrimLeftKeeps(m);
      TrimRightKeeps(TrimLeft(m)) by { TrimLeftSuffix(m); }
      assert p <= t && forall c :: c in m ==> c in t;
      TrimSpaceTrims(p);
      TrimSpaceTrims(m);
    }
  }

  lemma {:induction false} TokensWellFormed(toks: seq<string>)
    requires forall i :: 0 <= i < |toks| ==> ',' !in toks[i]
    ensures forall d :: d in ParseTokens(toks) ==> WellFormed(d)
  {
    if toks == [] {
    } else {
      TokensWellFormed(toks[..|toks| - 1]);
      TokenWellFormed(toks[|toks| - 1]);
    }
  }

  /** Whatever the annotation holds, every parsed declaration is well formed. */
  lemma ParsedWellFormed(raw: string)
    ensures forall d :: d in Parsed(raw) ==> WellFormed(d)
  {
    SplitPartsAvoidSeparator(raw, ',');
    TokensWellFormed(Split(raw, ','));
  }

  lemma ParsePrintOne(d: Declared)
    requires WellFormed(d)
    ensures ParseToken(PrintOne(d)) == [d]
    ensures ',' !in PrintOne(d) && PrintOne(d) != "" && !IsSpace(PrintOne(d)[0])
  {
    TrimSpaceFixes(PrintOne(d));
    CutFinds(d.provider, d.model, '/');
    TrimSpaceFixes(d.provider);
    TrimSpaceFixes(d.model);
  }

  lemma {:induction false} ParsePrintTokens(ds: seq<Declared>, toks: seq<string>)
    requires |toks| == |ds|
    requires forall i :: 0 <= i < |ds| ==> ParseToken(toks[i]) == [ds[i]]
    ensures ParseTokens(toks) == ds
  {
    if ds == [] {
    } else {
      var n := |ds| - 1;
      ParsePrintTokens(ds[..n], toks[..n]);
      assert ParseTokens(toks) == ds[..n] + ParseToken(toks[n]);
    }
  }

  /** Printing a list of well-formed declarations and parsing it gives the list back. */
  lemma ParsePrint(ds: seq<Declared>)
    requires forall d :: d in ds ==> WellFormed(d)
    ensures Parsed(Print(ds)) == ds
  {
    var toks := seq(|ds|, i requires 0 <= i < |ds| => PrintOne(ds[i]));
    forall i | 0 <= i < |ds|
      ensures ParseToken(toks[i]) == [ds[i]] && ',' !in toks[i] && toks[i] != "" && !IsSpace(toks[i][0])
    {
      ParsePrintOne(ds[i]);
    }
    ParsePrintTokens(ds, toks);
    if ds != [] {
      SplitJoin(toks, ',');
      assert Print(ds)[0] == toks[0][0];
      TrimRightKeeps(Print(ds));
    }
  }

  /** Hence printing what was parsed and parsing it again changes nothing. */
  lemma ParsePrintParse(raw: string)
    ensures Parsed(Print(Parsed(raw))) == Parsed(raw)
  {
    ParsedWellFormed(raw);
    ParsePrint(Parsed(raw));
  }

  // ---- The raw declarations of a pod ----

  function ClaimKey(c: ModelClaim): SortKey { SortKey(0, c.name) }

  /** A claim whose selector is malformed is skipped, like one that does not match. */
  function ClaimCovers(labels: Labels, account: string): ModelClaim -> bool {
    (c: ModelClaim) => WorkloadMatches(c.selector, labels, account) == Ok(true)
  }

  function RequestDeclared(r: ModelRequest): Declared {
    Declared(r.provider, r.model, Resolver.CredentialName(r.credentialRef))
  }

  function Requests(models: seq<ModelRequest>): seq<Declared> {
    seq(|models|, i requires 0 <= i < |models| => RequestDeclared(models[i]))
  }

  function ClaimDeclarations(claims: seq<ModelClaim>, labels: Labels, account: string): seq<Declared> {
    if claims == [] then []
    else
      var last := claims[|claims| - 1];
      ClaimDeclarations(claims[..|claims| - 1], labels, account)
      + (if ClaimCovers(labels, account)(last) then Requests(last.models) else [])
  }

  /** Everything anybody declares for the pod: matching claims in name order, then the annotation. */
  function RawDeclarations(claims: seq<ModelClaim>, labels: Labels, account: string, annotation: string)
    : seq<Declared>
  {
    ClaimDeclarations(Sort(ClaimKey, claims), labels, account) + Parsed(annotation)
  }

  // ---- The merge ----

  predicate NonBlank(d: Declared) { TrimSpace(d.provider) != "" && TrimSpace(d.model) != "" }

  function Trim(d: Declared): Declared { Declared(TrimSpace(d.provider), TrimSpace(d.model), d.credential) }

  /** Trimmed, with blank declarations dropped. */
  function Cleaned(ds: seq<Declared>): seq<Declared> {
    if ds == [] then []
    else Cleaned(ds[..|ds| - 1]) + (if NonBlank(ds[|ds| - 1]) then [Trim(ds[|ds| - 1])] else [])
  }

  function DeclaredKey(d: Declared): ModelKey { Resolver.ModelKey(ToLower(d.provider), ToLower(d.model)) }

  /** The first nonempty credential preference among the declarations with key k. */
  function Preference(ds: seq<Declared>, k: ModelKey): string {
    if ds == [] then ""
    else
      var earlier := Preference(ds[..|ds| - 1], k);
      if earlier == "" && DeclaredKey(ds[|ds| - 1]) == k then ds[|ds| - 1].credential else earlier
  }

  /** Each key once, in first-occurrence order, with its first nonempty preference. */
  function Merge(ds: seq<Declared>): seq<Declared> {
    var firsts := Firsts(DeclaredKey, ds);
    seq(|firsts|, i requires 0 <= i < |firsts| => firsts[i].(credential := Preference(ds, DeclaredKey(firsts[i]))))
  }

  /** The set of declarations that governs the pod. */
  function DeclaredModels(claims: seq<ModelClaim>, labels: Labels, account: string, annotation: string): seq<Declared> {
    Merge(Cleaned(RawDeclarations(claims, labels, account, annotation)))
  }

  ghost predicate FirstPreference(ds: seq<Declared>, k: ModelKey, i: int) {
    && 0 <= i < |ds| && DeclaredKey(ds[i]) == k && ds[i].credential != ""
    && forall j :: 0 <= j < i && DeclaredKey(ds[j]) == k ==> ds[j].credential == ""
  }

  lemma {:induction false} PreferenceIsFirst(ds: seq<Declared>, k: ModelKey)
    ensures Preference(ds, k) == "" <==> forall d :: d in ds && DeclaredKey(d) == k ==> d.credential == ""
    ensures Preference(ds, k) != "" ==> exists i :: FirstPreference(ds, k, i) && ds[i].credential == Preference(ds, k)
  {
    if ds == [] {
    } else {
      var n := |ds| - 1;
      var front, p := ds[..n], Preference(ds[..n], k);
      PreferenceIsFirst(front, k);
      assert ds == front + [ds[n]];
      if p != "" {
        var i :| FirstPreference(front, k, i) && front[i].credential == p;
        assert FirstPreference(ds, k, i);
      } else if Preference(ds, k) != "" {
        assert forall j :: 0 <= j < n ==> ds[j] in front;
        assert FirstPreference(ds, k, n);
      }
    }
  }

  /** No key has two merged entries. */
  lemma MergeDistinct(ds: seq<Declared>)
    ensures forall i, j :: 0 <= i < j < |Merge(ds)| ==> DeclaredKey(Merge(ds)[i]) != DeclaredKey(Merge(ds)[j])
  {
    FirstsDistinct(DeclaredKey, ds);
  }

  /** Every declaration has a merged entry with its key and that key's first nonempty preference. */
  lemma MergeEntry(ds: seq<Declared>, d: Declared) returns (m: Declared)
    requires d in ds
    ensures m in Merge(ds) && DeclaredKey(m) == DeclaredKey(d) && m.credential == Preference(ds, DeclaredKey(d))
  {
    var k :| 0 <= k < |ds| && ds[k] == d;
    var f := FirstsCover(DeclaredKey, ds, k);
    var i :| 0 <= i < |Firsts(DeclaredKey, ds)| && Firsts(DeclaredKey, ds)[i] == ds[f];
    m := Merge(ds)[i];
  }

  /** A merged entry spells its key as the first declaration with that key did. */
  lemma MergeOrigin(ds: seq<Declared>, m: Declared) returns (f: nat)
    requires m in Merge(ds)
    ensures f < |ds| && ds[f].provider == m.provider && ds[f].model == m.model && IsFirst(DeclaredKey, ds, f)
    ensures m.credential == Preference(ds, DeclaredKey(m))
  {
    var at := FirstsOrigin(DeclaredKey, ds);
    var i :| 0 <= i < |Merge(ds)| && Merge(ds)[i] == m;
    f := at[i];
  }

  // ---- declaredModelsForPod ----

  ghost function KeysOf(out: seq<Declared>): seq<ModelKey> {
    seq(|out|, i requires 0 <= i < |out| => DeclaredKey(out[i]))
  }

  /** seen maps keys to their indices, one to one. */
  ghost predicate Indexes(seen: map<ModelKey, nat>, keys: seq<ModelKey>) {
    && (forall k :: k in seen ==> seen[k] < |keys| && keys[seen[k]] == k)
    && (forall i :: 0 <= i < |keys| ==> keys[i] in seen && seen[keys[i]] == i)
  }

  /** out is the merge of ds, and seen indexes it. */
  ghost predicate IsMerge(ds: seq<Declared>, seen: map<ModelKey, nat>, out: seq<Declared>) {
    out == Merge(ds) && Indexes(seen, KeysOf(out)) && seen.Keys == KeySet(DeclaredKey, ds)
  }

  lemma AddKnown(ds: seq<Declared>, d: Declared, seen: map<ModelKey, nat>, out: seq<Declared>)
    requires IsMerge(ds, seen, out) && DeclaredKey(d) in seen
    ensures var i := seen[DeclaredKey(d)];
            && i < |out|
            && if out[i].credential == "" then IsMerge(ds + [d], seen, out[i := out[i].(credential := d.credential)])
               else IsMerge(ds + [d], seen, out)
  {
    MergeStep(ds, d, seen.Keys);
    var i, keys := seen[DeclaredKey(d)], KeysOf(out);
    assert keys[i] == DeclaredKey(d);
    UpgradeOne(out, keys, i, d, Merge(ds + [d]));
    assert seen.Keys + {DeclaredKey(d)} == seen.Keys;
  }

  /** Only the entry with d's key can be upgraded by d. */
  lemma UpgradeOne(out: seq<Declared>, keys: seq<ModelKey>, i: nat, d: Declared, more: seq<Declared>)
    requires keys == KeysOf(out) && i < |out| && keys[i] == DeclaredKey(d)
    requires forall j :: 0 <= j < |keys| && j != i ==> keys[j] != keys[i]
    requires |more| == |out| && forall j :: 0 <= j < |out| ==> more[j] == Upgraded(out[j], d)
    ensures more == if out[i].credential == "" then out[i := out[i].(credential := d.credential)] else out
    ensures KeysOf(more) == keys
  {
    forall j | 0 <= j < |out| ensures more[j] == if j == i then Upgraded(out[i], d) else out[j] {
      assert keys[j] == DeclaredKey(out[j]);
    }
    forall j | 0 <= j < |out| ensures DeclaredKey(more[j]) == keys[j] {
      assert keys[j] == DeclaredKey(out[j]);
    }
  }

  lemma AddNew(ds: seq<Declared>, d: Declared, seen: map<ModelKey, nat>, out: seq<Declared>)
    requires IsMerge(ds, seen, out) && DeclaredKey(d) !in seen
    ensures IsMerge(ds + [d], seen[DeclaredKey(d) := |out|], out + [d])
  {
    MergeStep(ds, d, seen.Keys);
    var keys := KeysOf(out);
    forall i | 0 <= i < |out| ensures Merge(ds + [d])[i] == out[i] {
      assert keys[i] in seen && keys[i] == DeclaredKey(out[i]);
    }
    assert out + [d] == Merge(ds + [d]);
    assert KeysOf(out + [d]) == keys + [DeclaredKey(d)];
  }

  /** The captured state of the `add` closure. */
  class Merger {
    var seen: map<ModelKey, nat>
    var out: seq<Declared>

    constructor ()
      ensures Merged([])
    {
      seen, out := map[], [];
    }

    ghost predicate Merged(ds: seq<Declared>)
      reads this
    {
      IsMerge(ds, seen, out)
    }

    method Add(provider: string, model: string, credential: string, ghost ds: seq<Declared>)
      requires Merged(ds)
      modifies this
      ensures Merged(ds + Cleaned([Declared(provider, model, credential)]))
    {
      var p, m := TrimSpace(provider), TrimSpace(model);
      ghost var raw := Declared(provider, model, credential);
      assert [raw][..0] == [] && Cleaned([]) == [];
      if p == "" || m == "" {
        assert ds + [] == ds;
        return;
      }
      var d := Declared(p, m, credential);
      assert Cleaned([raw]) == [d];
      var k := DeclaredKey(d);
      if k in seen {
        AddKnown(ds, d, seen, out);
        var idx := seen[k];
        if out[idx].credential == "" && credential != "" {
          out := out[idx := out[idx].(credential := credential)];
        }
      } else {
        AddNew(ds, d, seen, out);
        seen := seen[k := |out|];
        out := out + [d];
      }
    }
  }

  /** What one more declaration does to the merge. */
  lemma MergeStep(ds: seq<Declared>, d: Declared, keys: set<ModelKey>)
    requires keys == KeySet(DeclaredKey, ds)
    ensures |Merge(ds + [d])| == if DeclaredKey(d) in keys then |Merge(ds)| else |Merge(ds)| + 1
    ensures forall i :: 0 <= i < |Merge(ds)| ==> Merge(ds + [d])[i] == Upgraded(Merge(ds)[i], d)
    ensures DeclaredKey(d) !in keys ==> Merge(ds + [d])[|Merge(ds)|] == d
    ensures KeySet(DeclaredKey, ds + [d]) == keys + {DeclaredKey(d)}
  {
    FirstsAppend(DeclaredKey, ds, d);
    assert (ds + [d])[..|ds|] == ds;
    if DeclaredKey(d) !in keys {
      PreferenceIsFirst(ds, DeclaredKey(d));
    }
  }

  /** A merged entry takes over the preference of a later declaration with its key if it has none. */
  function Upgraded(m: Declared, d: Declared): Declared {
    if DeclaredKey(m) == DeclaredKey(d) && m.credential == "" then m.(credential := d.credential) else m
  }

  lemma {:induction false} CleanedConcat(a: seq<Declared>, b: seq<Declared>)
    ensures Cleaned(a + b) == Cleaned(a) + Cleaned(b)
  {
    if b == [] {
      assert a + b == a;
    } else {
      var n := |b| - 1;
      assert (a + b)[..|a + b| - 1] == a + b[..n];
      CleanedConcat(a, b[..n]);
    }
  }

  method AddAll(merger: Merger, ds: seq<Declared>, ghost before: seq<Declared>)
    requires merger.Merged(Cleaned(before))
    modifies merger
    ensures merger.Merged(Cleaned(before + ds))
  {
    assert before + ds[..0] == before;
    for i := 0 to |ds|
      invariant merger.Merged(Cleaned(before + ds[..i]))
    {
      assert before + ds[..i + 1] == (before + ds[..i]) + [ds[i]];
      CleanedConcat(before + ds[..i], [ds[i]]);
      merger.Add(ds[i].provider, ds[i].model, ds[i].credential, Cleaned(before + ds[..i]));
    }
    assert before + ds[..|ds|] == before + ds;
  }

  method DeclaredModelsForPod(claims: seq<ModelClaim>, labels: Labels, account: string, annotation: string)
    returns (out: seq<Declared>)
    ensures out == DeclaredModels(claims, labels, account, annotation)
  {
    var merger := new Merger();
    var sorted := Sort(ClaimKey, claims);
    for i := 0 to |sorted|
      invariant fresh(merger)
      invariant merger.Merged(Cleaned(ClaimDeclarations(sorted[..i], labels, account)))
    {
      ghost var before := ClaimDeclarations(sorted[..i], labels, account);
      ghost var upto := sorted[..i + 1];
      assert upto[..|upto| - 1] == sorted[..i] && upto[|upto| - 1] == sorted[i];
      var covered := WorkloadMatches(sorted[i].selector, labels, account);
      if covered == Ok(true) {
        assert ClaimDeclarations(upto, labels, account) == before + Requests(sorted[i].models);
        AddAll(merger, Requests(sorted[i].models), before);
      } else {
        assert ClaimDeclarations(upto, labels, account) == before + [];
        assert before + [] == before;
      }
    }
    assert sorted[..|sorted|] == sorted;
    var legacy := ParseModels(annotation);
    AddAll(merger, legacy, ClaimDeclarations(sorted, labels, account));
    return merger.out;
  }
}
