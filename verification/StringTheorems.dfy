/** What the string operations mean, stated without recursion over their definitions. */
module StringTheorems {
  import opened Strings

  const UPPER := "ABCDEFGHIJKLMNOPQRSTUVWXYZ"
  const LOWER := "abcdefghijklmnopqrstuvwxyz"

  ghost predicate Blank(s: string) { forall c :: c in s ==> c in " \t\n\r" || c as int in {11, 12} }

  lemma BlankIsSpace(s: string)
    ensures Blank(s) <==> forall c :: c in s ==> IsSpace(c)
  {
    forall c: char ensures IsSpace(c) <==> c in " \t\n\r" || c as int in {11, 12} {
    }
  }

  lemma {:induction false} TrimLeftBlank(s: string) returns (k: nat)
    ensures k <= |s| && TrimLeft(s) == s[k..] && Blank(s[..k])
  {
    if s == "" || !IsSpace(s[0]) {
      k := 0;
    } else {
      k := TrimLeftBlank(s[1..]);
      assert s[..k + 1] == [s[0]] + s[1..][..k];
      BlankIsSpace(s[1..][..k]);
      BlankIsSpace(s[..k + 1]);
      k := k + 1;
    }
  }

  lemma {:induction false} TrimRightBlank(s: string) returns (k: nat)
    ensures k <= |s| && TrimRight(s) == s[..k] && Blank(s[k..])
  {
    if s == "" || !IsSpace(s[|s| - 1]) {
      k := |s|;
    } else {
      var t := s[..|s| - 1];
      k := TrimRightBlank(t);
      assert s[k..] == t[k..] + [s[|s| - 1]];
      BlankIsSpace(t[k..]);
      BlankIsSpace(s[k..]);
    }
  }

  /** TrimSpace removes a blank front and a blank back, as much as there is. */
  lemma TrimSpaceExactly(s: string) returns (front: string, back: string)
    ensures s == front + TrimSpace(s) + back && Blank(front) && Blank(back) && Trimmed(TrimSpace(s))
  {
    var k := TrimLeftBlank(s);
    var l := TrimRightBlank(s[k..]);
    front, back := s[..k], s[k..][l..];
    TrimSpaceTrims(s);
  }

  lemma {:induction false} TrimLeftPadded(front: string, s: string)
    requires Blank(front)
    ensures TrimLeft(front + s) == TrimLeft(s)
  {
    if front == "" {
      assert front + s == s;
    } else {
      BlankIsSpace(front);
      assert front[0] in front && (front + s)[1..] == front[1..] + s;
      assert Blank(front[1..]) by {
        assert forall c :: c in front[1..] ==> c in front;
      }
      TrimLeftPadded(front[1..], s);
    }
  }

  lemma {:induction false} TrimRightPadded(s: string, back: string)
    requires Blank(back)
    ensures TrimRight(s + back) == TrimRight(s)
  {
    if back == "" {
      assert s + back == s;
    } else {
      var n := |back| - 1;
      BlankIsSpace(back);
      assert back[n] in back && (s + back)[..|s + back| - 1] == s + back[..n];
      assert Blank(back[..n]) by {
        assert forall c :: c in back[..n] ==> c in back;
      }
      TrimRightPadded(s, back[..n]);
    }
  }

  lemma {:induction false} TrimLeftOfBlank(s: string)
    requires Blank(s)
    ensures TrimLeft(s) == "" && TrimRight(s) == ""
  {
    assert s + "" == s && "" + s == s;
    TrimLeftPadded(s, "");
    TrimRightPadded("", s);
  }

  /** Blanks around a string do not matter to TrimSpace. */
  lemma TrimSpacePadded(front: string, s: string, back: string)
    requires Blank(front) && Blank(back)
    ensures TrimSpace(front + s + back) == TrimSpace(s)
  {
    assert front + s + back == front + (s + back);
    TrimLeftPadded(front, s + back);
    var k := TrimLeftBlank(s);
    if TrimLeft(s) == "" {
      assert s[k..] == "" && s == s[..k];
      TrimLeftPadded(s, back);
      TrimLeftOfBlank(back);
    } else {
      TrimLeftSuffix(s);
      assert s + back == s[..k] + (s[k..] + back);
      TrimLeftPadded(s[..k], s[k..] + back);
      TrimRightPadded(s[k..], back);
    }
  }

  /** A trimmed string between blanks is what TrimSpace finds. */
  lemma TrimSpaceFinds(front: string, s: string, back: string)
    requires Blank(front) && Blank(back) && Trimmed(s)
    ensures TrimSpace(front + s + back) == s
  {
    TrimSpacePadded(front, s, back);
    TrimSpaceFixes(s);
  }

  /** Capital letters become the small ones at their place in the alphabet; other characters stay. */
  lemma ToLowerExactly(s: string)
    ensures |ToLower(s)| == |s|
    ensures forall i, k :: 0 <= i < |s| && 0 <= k < 26 && s[i] == UPPER[k] ==> ToLower(s)[i] == LOWER[k]
    ensures forall i :: 0 <= i < |s| && s[i] !in UPPER ==> ToLower(s)[i] == s[i]
  {
    forall c: char, k | 0 <= k < 26 && c == UPPER[k] ensures LowerChar(c) == LOWER[k] {
    }
    forall c: char | 'A' <= c <= 'Z' ensures c in UPPER {
      assert UPPER[c as int - 'A' as int] == c;
    }
  }

  lemma ToUpperExactly(s: string)
    ensures |ToUpper(s)| == |s|
    ensures forall i, k :: 0 <= i < |s| && 0 <= k < 26 && s[i] == LOWER[k] ==> ToUpper(s)[i] == UPPER[k]
    ensures forall i :: 0 <= i < |s| && s[i] !in LOWER ==> ToUpper(s)[i] == s[i]
  {
    forall c: char, k | 0 <= k < 26 && c == LOWER[k] ensures UpperChar(c) == UPPER[k] {
    }
    forall c: char | 'a' <= c <= 'z' ensures c in LOWER {
      assert LOWER[c as int - 'a' as int] == c;
    }
  }

  /** Strings are compared as strings that differ first in one place, a proper prefix being less. */
  lemma {:induction false} StrLessExactly(a: string, b: string)
    ensures StrLess(a, b) <==>
            || (a <= b && a != b)
            || (exists k :: 0 <= k < |a| && k < |b| && a[..k] == b[..k] && a[k] < b[k])
  {
    if a == "" || b == "" {
    } else if a[0] != b[0] {
      forall k | 0 < k < |a| && k < |b| ensures a[..k] != b[..k] {
        assert a[..k][0] == a[0] && b[..k][0] == b[0];
      }
      assert a[0] < b[0] ==> a[..0] == b[..0];
    } else {
      StrLessExactly(a[1..], b[1..]);
      assert a == [a[0]] + a[1..] && b == [b[0]] + b[1..];
      if k :| 0 <= k < |a[1..]| && k < |b[1..]| && a[1..][..k] == b[1..][..k] && a[1..][k] < b[1..][k] {
        assert a[..k + 1] == [a[0]] + a[1..][..k] && b[..k + 1] == [b[0]] + b[1..][..k];
        assert a[k + 1] < b[k + 1];
      }
      if k :| 0 <= k < |a| && k < |b| && a[..k] == b[..k] && a[k] < b[k] {
        assert k > 0 && a[1..][..k - 1] == a[..k][1..] && b[1..][..k - 1] == b[..k][1..];
        assert a[1..][k - 1] < b[1..][k - 1];
      }
    }
  }

  /** Join undoes Split, so the parts are all that is between the separators. */
  lemma {:induction false} JoinSplit(s: string, sep: char)
    ensures Join(Split(s, sep), sep) == s
  {
    if s == "" {
    } else {
      var rest := Split(s[1..], sep);
      JoinSplit(s[1..], sep);
      assert s == [s[0]] + s[1..];
      if s[0] == sep {
        assert ([""] + rest)[1..] == rest;
      } else {
        var parts := [[s[0]] + rest[0]] + rest[1..];
        assert parts[1..] == rest[1..];
      }
    }
  }
}
