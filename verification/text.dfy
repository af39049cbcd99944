/**
 String utilities shared by the formatter's rewriting passes: occurrence of a
 pattern, Java's literal `String.replace`, and the removal of LaTeX grouping braces.
 */
module Text {

  /** True when `pat` occurs as a contiguous block somewhere in `s`
      (Dafny's `pat <= s` is the prefix test). */
  predicate IsInfix(pat: string, s: string)
    decreases |s|
  {
    pat <= s || (|s| > 0 && IsInfix(pat, s[1..]))
  }

  /** An occurrence stays an occurrence when text is put in front of it. */
  lemma {:induction false} InfixExtends(pat: string, p: string, s: string)
    requires IsInfix(pat, s)
    ensures IsInfix(pat, p + s)
    decreases |p|
  {
    if |p| == 0 {
      assert p + s == s;
    } else {
      InfixExtends(pat, p[1..], s);
      assert (p + s)[1..] == p[1..] + s;
    }
  }

  /** Every character of an occurring pattern is a character of the text. */
  lemma {:induction false} InfixChars(pat: string, s: string, c: char)
    ensures IsInfix(pat, s) && c in pat ==> c in s
    decreases |s|
  {
    if pat <= s && c in pat {
      var k :| 0 <= k < |pat| && pat[k] == c;
      assert s[k] == c;
    }
    if |s| > 0 {
      InfixChars(pat, s[1..], c);
      assert IsInfix(pat, s[1..]) && c in pat ==> c in s by {
        if c in s[1..] {
          var k :| 0 <= k < |s[1..]| && s[1..][k] == c;
          assert s[k + 1] == c;
        }
      }
    }
  }

  /** A pattern whose first character `p` lacks cannot start inside `p`. */
  lemma {:induction false} InfixSkipsPrefix(pat: string, p: string, s: string)
    requires |pat| > 0 && pat[0] !in p
    ensures IsInfix(pat, p + s) ==> IsInfix(pat, s)
    decreases |p|
  {
    if |p| > 0 {
      assert (p + s)[0] == p[0];
      assert !(pat <= p + s);
      assert (p + s)[1..] == p[1..] + s;
      InfixSkipsPrefix(pat, p[1..], s);
    } else {
      assert p + s == s;
    }
  }

  /** Java's `String.replace(target, replacement)`: scans left to right and
      replaces every leftmost, non-overlapping literal occurrence of `pat`. */
  function Replace(s: string, pat: string, rep: string): string
    requires |pat| > 0
    decreases |s|
  {
    if |s| == 0 then []
    else if pat <= s then rep + Replace(s[|pat|..], pat, rep)
    else [s[0]] + Replace(s[1..], pat, rep)
  }

  /** A text in which the pattern never occurs is left as it is. */
  lemma {:induction false} ReplaceWithoutMatch(s: string, pat: string, rep: string)
    requires |pat| > 0 && !IsInfix(pat, s)
    ensures Replace(s, pat, rep) == s
    decreases |s|
  {
    if |s| > 0 {
      ReplaceWithoutMatch(s[1..], pat, rep);
      assert s == [s[0]] + s[1..];
    }
  }

  /** A prefix free of the replacement's first character that is seen in the
      rewritten text was already there before the rewrite. */
  lemma {:induction false} PrefixSurvivesReplace(w: string, t: string, pat: string, rep: string)
    requires |pat| > 0 && |rep| > 0 && rep[0] !in w
    ensures w <= Replace(t, pat, rep) ==> w <= t
    decreases |t|
  {
    if |t| > 0 && |w| > 0 {
      if pat <= t {
        var r := Replace(t, pat, rep);
        assert r == rep + Replace(t[|pat|..], pat, rep);
        assert r[0] == rep[0] && w[0] != rep[0];
      } else {
        var tail := Replace(t[1..], pat, rep);
        PrefixSurvivesReplace(w[1..], t[1..], pat, rep);
        assert Replace(t, pat, rep) == [t[0]] + tail;
        assert ([t[0]] + tail)[1..] == tail;
        assert w == [w[0]] + w[1..] && t == [t[0]] + t[1..];
      }
    }
  }

  /** After the rewrite no occurrence of the pattern is left, provided the
      replacement cannot start one and cannot complete one begun in the text. */
  lemma {:induction false} ReplaceLeavesNoMatch(s: string, pat: string, rep: string)
    requires |pat| > 0 && |rep| > 0
    requires pat[0] !in rep && rep[0] !in pat[1..]
    ensures !IsInfix(pat, Replace(s, pat, rep))
    decreases |s|
  {
    if |s| == 0 {
    } else if pat <= s {
      ReplaceLeavesNoMatch(s[|pat|..], pat, rep);
      InfixSkipsPrefix(pat, rep, Replace(s[|pat|..], pat, rep));
    } else {
      var tail := Replace(s[1..], pat, rep);
      ReplaceLeavesNoMatch(s[1..], pat, rep);
      PrefixSurvivesReplace(pat[1..], s[1..], pat, rep);
      assert pat[0] != s[0] || !(pat[1..] <= s[1..]);
      assert ([s[0]] + tail)[0] == s[0] && ([s[0]] + tail)[1..] == tail;
    }
  }

  /** Position of the first `c` in `s`. */
  function IndexOf(s: string, c: char): (k: nat)
    requires c in s
    ensures k < |s| && s[k] == c
    ensures forall m :: 0 <= m < k ==> s[m] != c
  {
    if s[0] == c then 0 else 1 + IndexOf(s[1..], c)
  }

  predicate IsBrace(c: char) {
    c == '{' || c == '}'
  }

  /** The text with every `{` and `}` dropped and all else kept in order. */
  function StripBraces(s: string): string
    decreases |s|
  {
    if |s| == 0 then []
    else (if IsBrace(s[0]) then [] else [s[0]]) + StripBraces(s[1..])
  }

  /** A text without braces is left as it is. */
  lemma {:induction false} StripBracesWithoutBraces(s: string)
    requires forall k :: 0 <= k < |s| ==> !IsBrace(s[k])
    ensures StripBraces(s) == s
    decreases |s|
  {
    if |s| > 0 {
      StripBracesWithoutBraces(s[1..]);
      assert s == [s[0]] + s[1..];
    }
  }

  /** Stripping distributes over concatenation. */
  lemma {:induction false} StripBracesConcat(a: string, b: string)
    ensures StripBraces(a + b) == StripBraces(a) + StripBraces(b)
    decreases |a|
  {
    if |a| > 0 {
      StripBracesConcat(a[1..], b);
      assert (a + b)[0] == a[0] && (a + b)[1..] == a[1..] + b;
    } else {
      assert a + b == b;
    }
  }

  /** Stripping leaves no brace. */
  lemma {:induction false} StripBracesLeavesNoBrace(s: string)
    ensures forall k :: 0 <= k < |StripBraces(s)| ==> !IsBrace(StripBraces(s)[k])
    decreases |s|
  {
    if |s| > 0 {
      StripBracesLeavesNoBrace(s[1..]);
      var head := if IsBrace(s[0]) then [] else [s[0]];
      var tail := StripBraces(s[1..]);
      var r := StripBraces(s);
      assert r == head + tail;
      forall k | 0 <= k < |r| ensures !IsBrace(r[k]) {
        if k >= |head| {
          assert r[k] == tail[k - |head|];
        }
      }
    }
  }

  /** Stripping keeps every other character as often as it occurred. */
  lemma {:induction false} StripBracesKeepsTheRest(s: string)
    ensures forall c :: !IsBrace(c) ==> multiset(StripBraces(s))[c] == multiset(s)[c]
    decreases |s|
  {
    if |s| > 0 {
      StripBracesKeepsTheRest(s[1..]);
      assert s == [s[0]] + s[1..];
      var head := if IsBrace(s[0]) then [] else [s[0]];
      assert StripBraces(s) == head + StripBraces(s[1..]);
      assert multiset(StripBraces(s)) == multiset(head) + multiset(StripBraces(s[1..]));
      assert multiset(s) == multiset([s[0]]) + multiset(s[1..]);
    }
  }
}
