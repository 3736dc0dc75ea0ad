/**
 path.Match of Go's standard library on single-byte characters, and the resolver's globMatch on top of
 it. None stands for ErrBadPattern.
 */
module Glob {
  import opened Wrappers
  import opened Strings

  datatype ChunkMatch = BadChunk | NoMatch | Matched(rest: string)

  /** One possibly escaped character of a class; a class may not end with it. */
  function GetEsc(chunk: string): (r: Option<(char, string)>)
    ensures r.Some? ==> 0 < |r.value.1| < |chunk|
  {
    if chunk == "" || chunk[0] == '-' || chunk[0] == ']' then None
    else
      var body := if chunk[0] == '\\' then chunk[1..] else chunk;
      if |body| <= 1 then None else Some((body[0], body[1..]))
  }

  /** The ranges of a character class up to its closing bracket: did one contain c, and what follows. */
  function ParseClass(chunk: string, c: char, first: bool, hit: bool): (r: Option<(bool, string)>)
    ensures r.Some? ==> |r.value.1| <= |chunk|
    decreases |chunk|
  {
    if chunk != "" && chunk[0] == ']' && !first then Some((hit, chunk[1..]))
    else
      match GetEsc(chunk)
      case None => None
      case Some((lo, rest)) =>
        if rest[0] == '-' then
          match GetEsc(rest[1..])
          case None => None
          case Some((hi, rest')) => ParseClass(rest', c, false, hit || lo <= c <= hi)
        else ParseClass(rest, c, false, hit || lo == c)
  }

  /** Once failed, only the syntax of the remaining chunk is examined. */
  function MatchChunk(chunk: string, s: string, failed: bool): (r: ChunkMatch)
    decreases |chunk|
  {
    if chunk == "" then if failed then NoMatch else Matched(s)
    else
      var failed := failed || s == "";
      var tail := if failed then s else s[1..];
      match chunk[0]
      case '[' =>
        var c := if failed then 0 as char else s[0];
        var negated := |chunk| > 1 && chunk[1] == '^';
        (match ParseClass(if negated then chunk[2..] else chunk[1..], c, true, false)
         case None => BadChunk
         case Some((hit, rest)) => MatchChunk(rest, tail, failed || hit == negated))
      case '?' => MatchChunk(chunk[1..], tail, failed || s[0] == '/')
      case '\\' =>
        if |chunk| == 1 then BadChunk
        else MatchChunk(chunk[2..], tail, failed || chunk[1] != s[0])
      case _ => MatchChunk(chunk[1..], tail, failed || chunk[0] != s[0])
  }

  function SkipStars(pattern: string): (r: string)
    ensures |r| <= |pattern|
    ensures r == "" || r[0] != '*'
    ensures (pattern == "" || pattern[0] != '*') ==> r == pattern
    ensures pattern != "" && pattern[0] == '*' ==> |r| < |pattern|
  {
    if pattern != "" && pattern[0] == '*' then SkipStars(pattern[1..]) else pattern
  }

  /** Index of the first star outside a character class, at or after i. */
  function ChunkEnd(pattern: string, i: nat, inRange: bool): (r: nat)
    requires i <= |pattern|
    ensures i <= r <= |pattern|
    decreases |pattern| - i
  {
    if i == |pattern| then i
    else
      match pattern[i]
      case '\\' => ChunkEnd(pattern, if i + 1 < |pattern| then i + 2 else i + 1, inRange)
      case '[' => ChunkEnd(pattern, i + 1, true)
      case ']' => ChunkEnd(pattern, i + 1, false)
      case '*' => if inRange then ChunkEnd(pattern, i + 1, inRange) else i
      case _ => ChunkEnd(pattern, i + 1, inRange)
  }

  /** Splits off leading stars and the chunk up to the next one. */
  function ScanChunk(pattern: string): (r: (bool, string, string))
    requires pattern != ""
    ensures |r.2| < |pattern|
  {
    var body := SkipStars(pattern);
    var end := ChunkEnd(body, 0, false);
    ChunkEndAdvances(body);
    (pattern[0] == '*', body[..end], body[end..])
  }

  lemma ChunkEndAdvances(body: string)
    requires body == "" || body[0] != '*'
    ensures body != "" ==> ChunkEnd(body, 0, false) > 0
  {
  }

  predicate RestWellFormed(pattern: string)
    decreases |pattern|
  {
    if pattern == "" then true
    else
      var (_, chunk, rest) := ScanChunk(pattern);
      MatchChunk(chunk, "", false) != BadChunk && RestWellFormed(rest)
  }

  /** Tries the chunk after skipping one or more characters of name, none of them a slash. */
  function StarSearch(chunk: string, name: string, last: bool): ChunkMatch {
    if name == "" || name[0] == '/' then NoMatch
    else
      match MatchChunk(chunk, name[1..], false)
      case Matched(t) => if last && t != "" then StarSearch(chunk, name[1..], last) else Matched(t)
      case BadChunk => BadChunk
      case NoMatch => StarSearch(chunk, name[1..], last)
  }

  function PathMatch(pattern: string, name: string): Option<bool>
    decreases |pattern|
  {
    if pattern == "" then Some(name == "")
    else
      var (star, chunk, rest) := ScanChunk(pattern);
      if star && chunk == "" then Some('/' !in name)
      else
        var here := MatchChunk(chunk, name, false);
        if here.Matched? && (here.rest == "" || rest != "") then PathMatch(rest, here.rest)
        else if here.BadChunk? then None
        else
          var later := if star then StarSearch(chunk, name, rest == "") else NoMatch;
          match later
          case Matched(t) => PathMatch(rest, t)
          case BadChunk => None
          case NoMatch => if RestWellFormed(rest) then Some(false) else None
  }

  function GlobMatch(pattern: string, value: string): bool {
    var p, v := Norm(pattern), Norm(value);
    p == "*" || p == v || PathMatch(p, v) == Some(true)
  }

  // ---- Literal patterns ----

  predicate Literal(pattern: string) {
    forall c :: c in pattern ==> c !in "*?[\\"
  }

  lemma {:induction false} LiteralChunk(pattern: string, i: nat, inRange: bool)
    requires Literal(pattern) && i <= |pattern|
    ensures ChunkEnd(pattern, i, inRange) == |pattern|
    decreases |pattern| - i
  {
    if i < |pattern| {
      assert pattern[i] in pattern;
      LiteralChunk(pattern, i + 1, inRange);
      LiteralChunk(pattern, i + 1, false);
    }
  }

  lemma {:induction false} LiteralMatchChunk(chunk: string, s: string, failed: bool)
    requires Literal(chunk)
    ensures MatchChunk(chunk, s, failed) ==
            if !failed && chunk <= s then Matched(s[|chunk|..]) else NoMatch
    decreases |chunk|
  {
    if chunk != "" {
      assert chunk[0] in chunk;
      assert forall c :: c in chunk[1..] ==> c in chunk;
      var failed' := failed || s == "";
      LiteralMatchChunk(chunk[1..], if failed' then s else s[1..], failed' || chunk[0] != s[0]);
      if !failed' && chunk[0] == s[0] {
        assert chunk[1..] <= s[1..] <==> chunk <= s by {
          assert chunk == [chunk[0]] + chunk[1..] && s == [s[0]] + s[1..];
        }
      }
    }
  }

  lemma LiteralPathMatch(pattern: string, name: string)
    requires Literal(pattern)
    ensures PathMatch(pattern, name) == Some(pattern == name)
  {
    if pattern != "" {
      assert pattern[0] in pattern;
      LiteralChunk(pattern, 0, false);
      LiteralMatchChunk(pattern, name, false);
      assert SkipStars(pattern) == pattern == pattern[..|pattern|];
      assert ScanChunk(pattern) == (false, pattern, "");
    }
  }

  lemma LiteralNorm(pattern: string)
    requires Literal(pattern)
    ensures Literal(Norm(pattern))
  {
    TrimSpaceTrims(pattern);
    var t := TrimSpace(pattern);
    forall c | c in Norm(pattern) ensures c !in "*?[\\" {
      var i :| 0 <= i < |t| && LowerChar(t[i]) == c;
      assert t[i] in pattern;
    }
  }

  /** A rule free of metacharacters matches exactly the values with its own normal form. */
  lemma LiteralMatchesItself(pattern: string, value: string)
    requires Literal(pattern)
    ensures GlobMatch(pattern, value) <==> Norm(pattern) == Norm(value)
  {
    LiteralNorm(pattern);
    LiteralPathMatch(Norm(pattern), Norm(value));
    assert '*' in "*";
  }
}
