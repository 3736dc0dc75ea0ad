/** First occurrences by key: what the program's "seen map plus order slice" loops compute. */
module FirstOccurrences {

  /** The key of plain string slices. */
  function Itself(s: string): string { s }

  /** s[i] carries a key no earlier element carries. */
  predicate IsFirst<T, K(==)>(key: T -> K, s: seq<T>, i: nat)
    requires i < |s|
  {
    forall j :: 0 <= j < i ==> key(s[j]) != key(s[i])
  }

  function Firsts<T, K(==)>(key: T -> K, s: seq<T>): seq<T> {
    if s == [] then []
    else
      var n := |s| - 1;
      if IsFirst(key, s, n) then Firsts(key, s[..n]) + [s[n]] else Firsts(key, s[..n])
  }

  /** Every element has a representative with its key: the first element carrying it. */
  lemma {:induction false} FirstsCover<T, K>(key: T -> K, s: seq<T>, i: nat) returns (f: nat)
    requires i < |s|
    ensures f <= i && key(s[f]) == key(s[i]) && IsFirst(key, s, f) && s[f] in Firsts(key, s)
  {
    f := i;
    while exists j :: 0 <= j < f && key(s[j]) == key(s[f])
      invariant 0 <= f <= i && key(s[f]) == key(s[i])
      decreases f
    {
      var j :| 0 <= j < f && key(s[j]) == key(s[f]);
      f := j;
    }
    FirstsMember(key, s, f);
  }

  lemma {:induction false} FirstsMember<T, K>(key: T -> K, s: seq<T>, f: nat)
    requires f < |s| && IsFirst(key, s, f)
    ensures s[f] in Firsts(key, s)
  {
    if f < |s| - 1 {
      assert s[..|s| - 1][f] == s[f];
      FirstsMember(key, s[..|s| - 1], f);
    }
  }

  /** The representatives are elements of s, first of their key, in their original order. */
  lemma {:induction false} FirstsOrigin<T, K>(key: T -> K, s: seq<T>) returns (at: seq<nat>)
    ensures |at| == |Firsts(key, s)|
    ensures forall i :: 0 <= i < |at| ==> at[i] < |s| && Firsts(key, s)[i] == s[at[i]] && IsFirst(key, s, at[i])
    ensures forall i, j :: 0 <= i < j < |at| ==> at[i] < at[j]
  {
    at := [];
    if s == [] {
    } else {
      var n := |s| - 1;
      var front := s[..n];
      at := FirstsOrigin(key, front);
      forall i | 0 <= i < |at| ensures front[at[i]] == s[at[i]] && IsFirst(key, s, at[i]) {
        FirstInFront(key, s, at[i]);
      }
      if IsFirst(key, s, n) {
        at := at + [n];
      }
    }
  }

  lemma FirstInFront<T, K>(key: T -> K, s: seq<T>, f: nat)
    requires s != [] && f < |s| - 1 && IsFirst(key, s[..|s| - 1], f)
    ensures s[..|s| - 1][f] == s[f] && IsFirst(key, s, f)
  {
    var front := s[..|s| - 1];
    forall j | 0 <= j < f ensures key(s[j]) != key(s[f]) {
      assert front[j] == s[j];
    }
  }

  /** No key is represented twice. */
  lemma FirstsDistinct<T, K>(key: T -> K, s: seq<T>)
    ensures forall i, j :: 0 <= i < j < |Firsts(key, s)| ==> key(Firsts(key, s)[i]) != key(Firsts(key, s)[j])
  {
    var at := FirstsOrigin(key, s);
    forall i, j | 0 <= i < j < |Firsts(key, s)| ensures key(Firsts(key, s)[i]) != key(Firsts(key, s)[j]) {
      assert at[i] < at[j];
    }
  }

  /** The keys that occur in s: what a seen map has recorded after walking s. */
  ghost function KeySet<T, K>(key: T -> K, s: seq<T>): set<K> { set i | 0 <= i < |s| :: key(s[i]) }

  /** The seen set decides whether one more element is a first. */
  lemma FirstsAppend<T, K>(key: T -> K, s: seq<T>, x: T)
    ensures Firsts(key, s + [x]) == if key(x) in KeySet(key, s) then Firsts(key, s) else Firsts(key, s) + [x]
    ensures KeySet(key, s + [x]) == KeySet(key, s) + {key(x)}
  {
    var more := s + [x];
    assert more[..|s|] == s;
    assert IsFirst(key, more, |s|) <==> key(x) !in KeySet(key, s) by {
      assert forall j :: 0 <= j < |s| ==> more[j] == s[j];
    }
    forall k ensures k in KeySet(key, more) <==> k in KeySet(key, s) + {key(x)} {
      if k in KeySet(key, s) {
        var i :| 0 <= i < |s| && key(s[i]) == k;
        assert key(more[i]) == k;
      }
      assert key(more[|s|]) == key(x);
    }
  }
}
