/**
 What the greedy matcher means. Go's path.Match settles each star at the first place where the next piece of
 the pattern fits and never comes back to it; `Wild` tries every place. On patterns of characters, ? and *
 the two agree, slashes included, so rules can be read by `Wild`.
 */
module GlobTheorems {
  import opened Wrappers
  import opened Strings
  import opened Glob

  /** A star stands for any run without a slash, ? for one character but a slash, the rest for themselves. */
  predicate Wild(p: string, v: string)
    decreases |p| + |v|
  {
    if p == "" then v == ""
    else if p[0] == '*' then Wild(p[1..], v) || (v != "" && v[0] != '/' && Wild(p, v[1..]))
    else v != "" && (p[0] == v[0] || (p[0] == '?' && v[0] != '/')) && Wild(p[1..], v[1..])
  }

  /** No character classes and no escapes. */
  predicate Plain(p: string) { '[' !in p && '\\' !in p }

  /** The piece of a pattern up to its next star fits the front of v. */
  predicate Fits(c: string, v: string) {
    |c| <= |v| && forall i :: 0 <= i < |c| ==> c[i] == v[i] || (c[i] == '?' && v[i] != '/')
  }

  // ---- The matcher's parts on plain patterns ----

  lemma {:induction false} PlainMatchChunk(c: string, s: string, failed: bool)
    requires Plain(c)
    ensures MatchChunk(c, s, failed) == if !failed && Fits(c, s) then Matched(s[|c|..]) else NoMatch
    decreases |c|
  {
    if c == "" {
    } else {
      assert c[0] in c && forall x :: x in c[1..] ==> x in c;
      var failed' := failed || s == "";
      var tail := if failed' then s else s[1..];
      var miss := failed' || (c[0] != s[0] && !(c[0] == '?' && s[0] != '/'));
      PlainMatchChunk(c[1..], tail, miss);
      if !failed' {
        assert Fits(c, s) <==> !miss && Fits(c[1..], s[1..]) by {
          assert forall i :: 0 <= i < |c| - 1 ==> c[1..][i] == c[i + 1];
          assert forall i :: 0 <= i < |s| - 1 ==> s[1..][i] == s[i + 1];
          assert forall i :: 0 < i < |c| ==> c[i] == c[1..][i - 1];
        }
      }
    }
  }

  lemma {:induction false} PlainChunkEnd(p: string, i: nat)
    requires Plain(p) && i <= |p|
    ensures var r := ChunkEnd(p, i, false);
            (forall j :: i <= j < r ==> p[j] != '*') && (r < |p| ==> p[r] == '*')
    decreases |p| - i
  {
    if i == |p| {
    } else {
      assert p[i] in p;
      if p[i] != '*' {
        PlainChunkEnd(p, i + 1);
      }
    }
  }

  /** One step splits a plain pattern into its leading stars, a piece without stars, and the rest from a star on. */
  lemma PlainScan(p: string)
    requires Plain(p) && p != ""
    ensures var (star, chunk, rest) := ScanChunk(p);
            && SkipStars(p) == chunk + rest && (star <==> p[0] == '*')
            && '*' !in chunk && Plain(chunk) && Plain(rest) && (rest != "" ==> rest[0] == '*')
            && (!star ==> p == chunk + rest) && (chunk == "" ==> rest == "")
  {
    var body := SkipStars(p);
    SkipStarsKeeps(p);
    PlainChunkEnd(body, 0);
    ChunkEndAdvances(body);
    var end := ChunkEnd(body, 0, false);
    assert body == body[..end] + body[end..];
  }

  lemma {:induction false} SkipStarsKeeps(p: string)
    ensures forall x :: x in SkipStars(p) ==> x in p
  {
    if p == "" || p[0] != '*' {
    } else {
      SkipStarsKeeps(p[1..]);
    }
  }

  lemma {:induction false} PlainRestWellFormed(p: string)
    requires Plain(p)
    ensures RestWellFormed(p)
    decreases |p|
  {
    if p == "" {
    } else {
      var (_, chunk, rest) := ScanChunk(p);
      PlainScan(p);
      PlainMatchChunk(chunk, "", false);
      PlainRestWellFormed(rest);
    }
  }

  // ---- Wild, piece by piece ----

  lemma {:induction false} WildPiece(c: string, rest: string, v: string)
    requires '*' !in c
    ensures Wild(c + rest, v) <==> Fits(c, v) && Wild(rest, v[|c|..])
    decreases |c|
  {
    if c == "" {
      assert c + rest == rest && v[0..] == v;
    } else {
      var p := c + rest;
      assert c[0] in c && p[0] == c[0] && p[1..] == c[1..] + rest;
      if v != "" {
        WildPiece(c[1..], rest, v[1..]);
        assert Fits(c, v) <==> (c[0] == v[0] || (c[0] == '?' && v[0] != '/')) && Fits(c[1..], v[1..]) by {
          assert forall i :: 0 <= i < |c| - 1 ==> c[1..][i] == c[i + 1];
          assert forall i :: 0 <= i < |v| - 1 ==> v[1..][i] == v[i + 1];
          assert forall i :: 0 < i < |c| ==> c[i] == c[1..][i - 1];
        }
        assert |c| <= |v| ==> v[1..][|c| - 1..] == v[|c|..];
      }
    }
  }

  /** A star may skip a slash-free front. */
  lemma {:induction false} StarSkips(q: string, v: string, k: nat)
    requires k <= |v| && '/' !in v[..k] && Wild(q, v[k..])
    ensures Wild("*" + q, v)
    decreases k
  {
    var p := "*" + q;
    assert p[1..] == q;
    if k == 0 {
      assert v[0..] == v;
    } else {
      assert v[0] == v[..k][0] && v[1..][k - 1..] == v[k..];
      assert forall x :: x in v[1..][..k - 1] ==> x in v[..k] by {
        assert v[1..][..k - 1] == v[..k][1..];
      }
      StarSkips(q, v[1..], k - 1);
    }
  }

  /** ... and skips one if it matches. */
  lemma {:induction false} StarSkipped(q: string, v: string) returns (k: nat)
    requires Wild("*" + q, v)
    ensures k <= |v| && '/' !in v[..k] && Wild(q, v[k..])
    decreases |v|
  {
    var p := "*" + q;
    assert p[1..] == q;
    if Wild(q, v) {
      k := 0;
      assert v[0..] == v;
    } else {
      k := StarSkipped(q, v[1..]);
      assert v[1..][k..] == v[k + 1..] && v[..k + 1] == [v[0]] + v[1..][..k];
      k := k + 1;
    }
  }

  /** Several stars are one. */
  lemma {:induction false} StarsAreOne(p: string, v: string)
    requires p != "" && p[0] == '*'
    ensures Wild(p, v) <==> Wild("*" + SkipStars(p), v)
    decreases |p|
  {
    var q := p[1..];
    assert p == "*" + q;
    if q != "" && q[0] == '*' {
      StarsAreOne(q, v);
      if Wild(p, v) {
        var k := StarSkipped(q, v);
        StarsAreOne(q, v[k..]);
        var l := StarSkipped(SkipStars(q), v[k..]);
        assert v[k..][l..] == v[k + l..] && v[..k + l] == v[..k] + v[k..][..l];
        StarSkips(SkipStars(q), v, k + l);
      }
      if Wild("*" + SkipStars(p), v) {
        assert v[0..] == v;
        StarSkips(q, v, 0);
      }
    } else {
      assert SkipStars(p) == q;
    }
  }

  // ---- Why the first fit suffices ----

  /** If a piece fits at two places behind a slash-free front, it has no slash at all. */
  lemma {:induction false} TwoFitsNoSlash(c: string, v: string, i: nat, j: nat, o: nat)
    requires i < j <= |v| && '/' !in v[..j] && Fits(c, v[i..]) && Fits(c, v[j..]) && o < |c|
    ensures c[o] != '/'
    decreases o
  {
    if c[o] == '/' {
      assert v[i..][o] == v[i + o] == '/';
      assert i + o >= j by {
        assert forall x :: 0 <= x < j ==> v[..j][x] == v[x];
      }
      var l := i + o - j;
      assert v[j..][l] == v[j + l];
      TwoFitsNoSlash(c, v, i, j, l);
    }
  }

  /** A later fit can always be traded for an earlier one if a star follows. */
  lemma EarlierFitSuffices(c: string, rest: string, v: string, i: nat, j: nat)
    requires i < j <= |v| && '/' !in v[..j] && Fits(c, v[i..]) && Fits(c, v[j..])
    requires rest != "" && rest[0] == '*' && Wild(rest, v[j + |c|..])
    ensures Wild(rest, v[i + |c|..])
  {
    var from, to := v[i + |c|..], j - i;
    assert from[to..] == v[j + |c|..];
    forall x | 0 <= x < to ensures from[..to][x] != '/' {
      var y := i + |c| + x;
      assert from[..to][x] == v[y];
      if y < j {
        assert v[..j][y] == v[y];
      } else {
        TwoFitsNoSlash(c, v, i, j, y - j);
        assert v[j..][y - j] == v[y];
      }
    }
    assert rest == "*" + rest[1..];
    WildStarMore(rest[1..], from, to);
  }

  lemma WildStarMore(q: string, v: string, k: nat)
    requires k <= |v| && '/' !in v[..k] && Wild("*" + q, v[k..])
    ensures Wild("*" + q, v)
  {
    var l := StarSkipped(q, v[k..]);
    assert v[k..][l..] == v[k + l..] && v[..k + l] == v[..k] + v[k..][..l];
    StarSkips(q, v, k + l);
  }

  /** k is the first slash-free skip at which the piece fits, up to the end of v if it is the last piece. */
  ghost predicate FitsAt(c: string, v: string, last: bool, k: int) {
    0 <= k <= |v| && '/' !in v[..k] && Fits(c, v[k..]) && (last ==> k + |c| == |v|)
  }

  ghost predicate FirstFit(c: string, v: string, last: bool, k: int) {
    FitsAt(c, v, last, k) && forall j :: 0 <= j < k ==> !FitsAt(c, v, last, j)
  }

  lemma FitsAtTail(c: string, v: string, last: bool, k: int)
    requires v != "" && v[0] != '/' && 0 <= k
    ensures FitsAt(c, v[1..], last, k) <==> FitsAt(c, v, last, k + 1)
  {
    if k < |v| {
      assert v[1..][k..] == v[k + 1..] && v[..k + 1] == [v[0]] + v[1..][..k];
    }
  }

  /** The search behind a star finds the first fit after at least one character. */
  lemma {:induction false} StarSearchFinds(c: string, v: string, last: bool)
    requires Plain(c)
    ensures match StarSearch(c, v, last)
            case Matched(t) => exists k :: 1 <= k && FitsAt(c, v, last, k) && t == v[k + |c|..]
                                           && forall j :: 1 <= j < k ==> !FitsAt(c, v, last, j)
            case NoMatch => forall k :: 1 <= k ==> !FitsAt(c, v, last, k)
            case BadChunk => false
    decreases |v|
  {
    if v == "" || v[0] == '/' {
      forall k | 1 <= k ensures !FitsAt(c, v, last, k) {
        assert v != "" && k <= |v| ==> v[..k][0] == '/';
      }
    } else {
      PlainMatchChunk(c, v[1..], false);
      FitsAtTail(c, v, last, 0);
      assert v[1..][0..] == v[1..] && v[1..][..0] == "";
      if FitsAt(c, v[1..], last, 0) {
        assert FitsAt(c, v, last, 1) && v[1..][|c|..] == v[1 + |c|..];
      } else {
        StarSearchFinds(c, v[1..], last);
        SearchFurther(c, v, last);
      }
    }
  }

  lemma SearchFurther(c: string, v: string, last: bool)
    requires v != "" && v[0] != '/' && !FitsAt(c, v, last, 1)
    ensures forall k :: 1 <= k && FitsAt(c, v[1..], last, k) ==>
              FitsAt(c, v, last, k + 1) && v[1..][k + |c|..] == v[k + 1 + |c|..]
    ensures forall k :: 1 < k && FitsAt(c, v, last, k) ==> FitsAt(c, v[1..], last, k - 1)
  {
    forall k | 1 <= k && FitsAt(c, v[1..], last, k)
      ensures FitsAt(c, v, last, k + 1) && v[1..][k + |c|..] == v[k + 1 + |c|..]
    {
      FitsAtTail(c, v, last, k);
    }
    forall k | 1 < k && FitsAt(c, v, last, k) ensures FitsAt(c, v[1..], last, k - 1) {
      FitsAtTail(c, v, last, k - 1);
    }
  }

  /** A star before a piece matches iff the piece has a first fit and the rest matches behind that one. */
  lemma StarByFirstFit(c: string, rest: string, v: string, k: int)
    requires '*' !in c && (rest != "" ==> rest[0] == '*') && FirstFit(c, v, rest == "", k)
    ensures Wild("*" + (c + rest), v) <==> Wild(rest, v[k + |c|..])
  {
    assert v[k..][|c|..] == v[k + |c|..];
    WildPiece(c, rest, v[k..]);
    if Wild(rest, v[k + |c|..]) {
      StarSkips(c + rest, v, k);
    }
    if Wild("*" + (c + rest), v) {
      var j := StarSkipped(c + rest, v);
      WildPiece(c, rest, v[j..]);
      assert v[j..][|c|..] == v[j + |c|..] && (rest == "" ==> v[j + |c|..] == "");
      assert FitsAt(c, v, rest == "", j);
      if k < j && rest != "" {
        EarlierFitSuffices(c, rest, v, k, j);
      }
    }
  }

  /** A star before a piece needs a place where the piece fits. */
  lemma StarNeedsFit(c: string, rest: string, v: string) returns (k: nat)
    requires '*' !in c && Wild("*" + (c + rest), v)
    ensures FitsAt(c, v, rest == "", k)
  {
    k := StarSkipped(c + rest, v);
    WildPiece(c, rest, v[k..]);
    assert v[k..][|c|..] == v[k + |c|..];
    assert rest == "" ==> v[k + |c|..] == "";
  }

  // ---- The matcher ----

  /** On plain patterns the greedy matcher is right, and never reports a bad pattern. */
  lemma {:induction false} PathMatchIsWild(p: string, v: string)
    requires Plain(p)
    ensures PathMatch(p, v) == Some(Wild(p, v))
    decreases |p|
  {
    if p == "" {
    } else {
      var (star, chunk, rest) := ScanChunk(p);
      PlainScan(p);
      PlainMatchChunk(chunk, v, false);
      PlainRestWellFormed(rest);
      if star {
        StarsAreOne(p, v);
        StarPieceMatch(p, v, chunk, rest);
      } else {
        WildPiece(chunk, rest, v);
        if Fits(chunk, v) && (v[|chunk|..] == "" || rest != "") {
          PathMatchIsWild(rest, v[|chunk|..]);
        } else if Fits(chunk, v) {
          assert rest == "" && v[|chunk|..] != "";
        }
      }
    }
  }

  lemma {:induction false} StarPieceMatch(p: string, v: string, chunk: string, rest: string)
    requires Plain(p) && p != "" && ScanChunk(p) == (true, chunk, rest)
    requires '*' !in chunk && Plain(chunk) && Plain(rest)
    requires (rest != "" ==> rest[0] == '*') && (chunk == "" ==> rest == "") && RestWellFormed(rest)
    requires Wild(p, v) <==> Wild("*" + (chunk + rest), v)
    ensures PathMatch(p, v) == Some(Wild(p, v))
    decreases |p|, 0
  {
    if chunk == "" {
      StarAlone(v);
      assert "*" + (chunk + rest) == "*";
    } else {
      var k := StarPieceStep(p, v, chunk, rest);
      if k < 0 {
        if Wild("*" + (chunk + rest), v) {
          var j := StarNeedsFit(chunk, rest, v);
        }
      } else {
        StarByFirstFit(chunk, rest, v, k);
        PathMatchIsWild(rest, v[k + |chunk|..]);
      }
    }
  }

  /** One star and the piece behind it, by the matcher's own steps. */
  lemma StarPieceUnfolds(p: string, v: string, chunk: string, rest: string)
    requires p != "" && ScanChunk(p) == (true, chunk, rest) && chunk != ""
    requires Plain(chunk) && RestWellFormed(rest)
    ensures PathMatch(p, v)
         == if Fits(chunk, v) && (v[|chunk|..] == "" || rest != "") then PathMatch(rest, v[|chunk|..])
            else match StarSearch(chunk, v, rest == "")
                 case Matched(t) => PathMatch(rest, t)
                 case BadChunk => None
                 case NoMatch => Some(false)
  {
    PlainMatchChunk(chunk, v, false);
  }

  /** The matcher goes on behind the first fit, and fails if there is none. */
  lemma StarPieceStep(p: string, v: string, chunk: string, rest: string) returns (k: int)
    requires p != "" && ScanChunk(p) == (true, chunk, rest) && chunk != "" && Plain(chunk) && RestWellFormed(rest)
    ensures var last := rest == "";
            if k < 0 then PathMatch(p, v) == Some(false) && forall j :: 0 <= j ==> !FitsAt(chunk, v, last, j)
            else FirstFit(chunk, v, rest == "", k) && PathMatch(p, v) == PathMatch(rest, v[k + |chunk|..])
  {
    var last := rest == "";
    StarPieceUnfolds(p, v, chunk, rest);
    assert v[0..] == v && v[..0] == "";
    if Fits(chunk, v) && (v[|chunk|..] == "" || rest != "") {
      k := 0;
    } else {
      assert !FitsAt(chunk, v, last, 0);
      StarSearchFinds(chunk, v, last);
      match StarSearch(chunk, v, last) {
        case Matched(t) =>
          k :| 1 <= k && FitsAt(chunk, v, last, k) && t == v[k + |chunk|..]
               && forall j :: 1 <= j < k ==> !FitsAt(chunk, v, last, j);
        case NoMatch =>
          k := -1;
      }
    }
  }

  lemma {:induction false} StarAlone(v: string)
    ensures Wild("*", v) <==> '/' !in v
    decreases |v|
  {
    assert "*"[1..] == "";
    if v == "" {
    } else {
      StarAlone(v[1..]);
      assert v == [v[0]] + v[1..];
    }
  }

  // ---- Rules ----

  /** A catch-all matches everything, slashes included, although a star elsewhere stops at them. */
  lemma CatchAllMatches(pattern: string, value: string)
    requires TrimSpace(pattern) == "*"
    ensures GlobMatch(pattern, value)
  {
    assert ToLower("*") == "*";
  }

  /** A plain pattern matches a value iff it is the catch-all, or matches wildly in lower case without margins. */
  lemma PlainGlobExactly(pattern: string, value: string)
    requires Plain(Norm(pattern))
    ensures GlobMatch(pattern, value) <==>
            Norm(pattern) == "*" || Norm(pattern) == Norm(value) || Wild(Norm(pattern), Norm(value))
  {
    PathMatchIsWild(Norm(pattern), Norm(value));
  }

  lemma {:induction false} WildPrefix(prefix: string, v: string)
    requires '*' !in prefix && '?' !in prefix
    ensures Wild(prefix + "*", v) <==> prefix <= v && '/' !in v[|prefix|..]
  {
    WildPiece(prefix, "*", v);
    if Fits(prefix, v) {
      StarAlone(v[|prefix|..]);
      assert forall i :: 0 <= i < |prefix| ==> prefix[i] in prefix && prefix[i] == v[i];
    }
  }

  /** prefix* matches exactly the values that start with the prefix and have no slash behind it. */
  lemma TrailingStarExactly(pattern: string, prefix: string, value: string)
    requires Norm(pattern) == prefix + "*" && prefix != "" && Literal(prefix)
    ensures GlobMatch(pattern, value) <==> prefix <= Norm(value) && '/' !in Norm(value)[|prefix|..]
  {
    var v := Norm(value);
    assert Plain(prefix + "*") && '*' !in prefix && '?' !in prefix;
    PlainGlobExactly(pattern, value);
    WildPrefix(prefix, v);
    if prefix + "*" == v {
      assert v[|prefix|..] == "*";
    }
  }

  // ---- Classes and escapes ----

  /** An escaped character stands for itself, whatever it is. */
  lemma EscapedCharacter(c: char, v: string)
    ensures PathMatch(['\\', c], v) == Some(v == [c])
  {
    var p := ['\\', c];
    assert ChunkEnd(p, 0, false) == ChunkEnd(p, 2, false) == 2;
    assert SkipStars(p) == p && p[..2] == p && p[2..] == "" && ScanChunk(p) == (false, p, "");
    if v != "" {
      assert MatchChunk(p[2..], v[1..], c != v[0]) == if c != v[0] then NoMatch else Matched(v[1..]);
    } else {
      assert MatchChunk(p[2..], v, true) == NoMatch;
    }
    assert v == [c] <==> v != "" && v[0] == c && v[1..] == "" by {
      if v != "" { assert v == [v[0]] + v[1..]; }
    }
  }

  /** A class of one range stands for one character in it, or with ^ in front for one outside it. */
  lemma OneRangeClass(lo: char, hi: char, negated: bool, v: string)
    requires lo !in "]-\\^" && hi !in "]-\\"
    ensures var p := (if negated then "[^" else "[") + [lo, '-', hi, ']'];
            PathMatch(p, v) == Some(|v| == 1 && (lo <= v[0] <= hi <==> !negated))
  {
    var body := [lo, '-', hi, ']'];
    var p := (if negated then "[^" else "[") + body;
    RangeScan(p, lo, hi, negated);
    var tail := if negated then p[2..] else p[1..];
    assert tail == body;
    forall c: char ensures ParseClass(body, c, true, false) == Some((lo <= c <= hi, "")) {
      RangeParses(lo, hi, c);
    }
    var c := if v == "" then 0 as char else v[0];
    assert MatchChunk(p, v, false)
           == MatchChunk("", if v == "" then v else v[1..], v == "" || (lo <= c <= hi) == negated);
  }

  lemma RangeParses(lo: char, hi: char, c: char)
    requires lo !in "]-\\^" && hi !in "]-\\"
    ensures ParseClass([lo, '-', hi, ']'], c, true, false) == Some((lo <= c <= hi, ""))
  {
    var body := [lo, '-', hi, ']'];
    assert ']' in "]-\\^" && '-' in "]-\\^" && '\\' in "]-\\^" && ']' in "]-\\" && '-' in "]-\\" && '\\' in "]-\\";
    assert body[1..] == ['-', hi, ']'] && body[1..][1..] == [hi, ']'] && [hi, ']'][1..] == "]";
    assert GetEsc(body) == Some((lo, body[1..]));
    assert GetEsc([hi, ']']) == Some((hi, "]"));
    assert "]"[1..] == "";
    assert ParseClass("]", c, false, lo <= c <= hi) == Some((lo <= c <= hi, ""));
  }

  lemma RangeScan(p: string, lo: char, hi: char, negated: bool)
    requires p == (if negated then "[^" else "[") + [lo, '-', hi, ']'] && lo !in "]-\\^" && hi !in "]-\\"
    ensures ScanChunk(p) == (false, p, "") && |p| > 1 && (p[1] == '^' <==> negated)
  {
    assert ']' in "]-\\^" && '-' in "]-\\^" && '\\' in "]-\\^" && '^' in "]-\\^" && ']' in "]-\\" && '\\' in "]-\\";
    var n := |p|;
    assert p[0] == '[' && p[n - 4] == lo && p[n - 3] == '-' && p[n - 2] == hi && p[n - 1] == ']';
    assert ChunkEnd(p, n, false) == n && ChunkEnd(p, n - 1, true) == n;
    assert ChunkEnd(p, n - 2, true) == n;
    assert ChunkEnd(p, n - 3, true) == n;
    assert ChunkEnd(p, n - 4, true) == n;
    assert ChunkEnd(p, 1, true) == n;
    assert ChunkEnd(p, 0, false) == n;
    assert SkipStars(p) == p && p[..n] == p && p[n..] == "";
  }

  /** Inside a class too an escaped character stands for itself, a closing bracket or a dash included. */
  lemma EscapedInClass(c: char, v: string)
    ensures PathMatch(['[', '\\', c, ']'], v) == Some(v == [c])
  {
    var p, body := ['[', '\\', c, ']'], ['\\', c, ']'];
    assert ChunkEnd(p, 4, false) == 4 && ChunkEnd(p, 3, true) == 4 && ChunkEnd(p, 1, true) == 4
           && ChunkEnd(p, 0, false) == 4;
    assert SkipStars(p) == p && p[..4] == p && p[4..] == "" && ScanChunk(p) == (false, p, "");
    assert p[1..] == body && body[1..] == [c, ']'] && [c, ']'][1..] == "]" && "]"[1..] == "";
    forall x: char ensures ParseClass(body, x, true, false) == Some((x == c, "")) {
      assert GetEsc(body) == Some((c, "]"));
      assert ParseClass("]", x, false, c == x) == Some((c == x, ""));
    }
    var x := if v == "" then 0 as char else v[0];
    assert MatchChunk(p, v, false) == MatchChunk("", if v == "" then v else v[1..], v == "" || x != c);
    assert v == [c] <==> v != "" && v[0] == c && v[1..] == "" by {
      if v != "" { assert v == [v[0]] + v[1..]; }
    }
  }

  /** Characters a class may list as they are. */
  predicate Listable(cs: string) { forall c :: c in cs ==> c !in "]-\\^" }

  lemma {:induction false} ListParses(cs: string, c: char, first: bool, hit: bool)
    requires Listable(cs) && (first ==> cs != "")
    ensures ParseClass(cs + "]", c, first, hit) == Some((hit || c in cs, ""))
    decreases |cs|
  {
    assert ']' in "]-\\^" && '-' in "]-\\^" && '\\' in "]-\\^";
    var body := cs + "]";
    if cs == "" {
      assert body == "]" && body[1..] == "";
    } else {
      assert cs[0] in cs && body[0] == cs[0] && body[1..] == cs[1..] + "]";
      assert Listable(cs[1..]) by { assert forall x :: x in cs[1..] ==> x in cs; }
      assert cs == [cs[0]] + cs[1..];
      assert body[1..][0] != '-' by {
        if |cs| > 1 { assert body[1..][0] == cs[1] && cs[1] in cs; }
      }
      assert GetEsc(body) == Some((cs[0], body[1..]));
      ListParses(cs[1..], c, false, hit || cs[0] == c);
    }
  }

  lemma {:induction false} ListChunkEnd(p: string, i: nat)
    requires 1 <= i <= |p| - 1 && p[|p| - 1] == ']' && Listable(p[1..|p| - 1])
    ensures ChunkEnd(p, i, true) == |p|
    decreases |p| - i
  {
    assert ']' in "]-\\^" && '\\' in "]-\\^";
    if i == |p| - 1 {
      assert ChunkEnd(p, |p|, false) == |p|;
    } else {
      assert p[i] == p[1..|p| - 1][i - 1] && p[i] in p[1..|p| - 1];
      ListChunkEnd(p, i + 1);
    }
  }

  /** A class of listed characters stands for one of them. */
  lemma ListedClass(cs: string, v: string)
    requires Listable(cs) && cs != ""
    ensures PathMatch("[" + cs + "]", v) == Some(|v| == 1 && v[0] in cs)
  {
    var p := "[" + cs + "]";
    assert p[1..|p| - 1] == cs && p[1..] == cs + "]" && p[0] == '[' && p[1] == cs[0] && cs[0] in cs && '^' in "]-\\^";
    ListChunkEnd(p, 1);
    assert ChunkEnd(p, 0, false) == |p|;
    assert SkipStars(p) == p && p[..|p|] == p && p[|p|..] == "" && ScanChunk(p) == (false, p, "");
    var c := if v == "" then 0 as char else v[0];
    ListParses(cs, c, true, false);
    assert MatchChunk(p, v, false) == MatchChunk("", if v == "" then v else v[1..], v == "" || c !in cs);
  }
}
