/**
 The string rewrites `OOPreFormatter.format` applies before and after its
 character scanner: three pre-normalisation passes and the restoration of the
 dollar sentinel.
 */
module Normalise {
  import opened Text

  /** Stands for an escaped dollar while the scanner runs. */
  const Sentinel: string := "&dollar;"

  /** First pass: the regular expression `&|\\&` rewritten to `&`.  At each
      position the alternation first tries a lone `&` (rewritten to itself),
      then a backslash followed by `&`. */
  function CollapseAmpersands(s: string): string
    decreases |s|
  {
    if |s| == 0 then []
    else if s[0] == '&' then "&" + CollapseAmpersands(s[1..])
    else if |s| >= 2 && s[0] == '\\' && s[1] == '&' then "&" + CollapseAmpersands(s[2..])
    else [s[0]] + CollapseAmpersands(s[1..])
  }

  /** The first pass only ever deletes backslashes: every other character
      occurs as often as before, and backslashes no more often. */
  lemma {:induction false} CollapseOnlyDropsBackslashes(s: string)
    ensures forall c :: c != '\\' ==> multiset(CollapseAmpersands(s))[c] == multiset(s)[c]
    ensures multiset(CollapseAmpersands(s))['\\'] <= multiset(s)['\\']
    decreases |s|, 1
  {
    if |s| == 0 {
    } else if |s| >= 2 && s[0] == '\\' && s[1] == '&' {
      CollapseDropsEscape(s);
    } else {
      CollapseKeepsHead(s);
    }
  }

  lemma {:induction false} CollapseDropsEscape(s: string)
    requires |s| >= 2 && s[0] == '\\' && s[1] == '&'
    ensures forall c :: c != '\\' ==> multiset(CollapseAmpersands(s))[c] == multiset(s)[c]
    ensures multiset(CollapseAmpersands(s))['\\'] <= multiset(s)['\\']
    decreases |s|, 0
  {
    CollapseOnlyDropsBackslashes(s[2..]);
    assert s == [s[0]] + ([s[1]] + s[2..]);
    assert multiset(s) == multiset{'\\'} + (multiset{'&'} + multiset(s[2..]));
    assert multiset(CollapseAmpersands(s)) == multiset{'&'} + multiset(CollapseAmpersands(s[2..]));
  }

  lemma {:induction false} CollapseKeepsHead(s: string)
    requires |s| > 0 && !(|s| >= 2 && s[0] == '\\' && s[1] == '&')
    ensures forall c :: c != '\\' ==> multiset(CollapseAmpersands(s))[c] == multiset(s)[c]
    ensures multiset(CollapseAmpersands(s))['\\'] <= multiset(s)['\\']
    decreases |s|, 0
  {
    CollapseOnlyDropsBackslashes(s[1..]);
    assert s == [s[0]] + s[1..];
    assert CollapseAmpersands(s) == [s[0]] + CollapseAmpersands(s[1..]);
    assert multiset(CollapseAmpersands(s)) == multiset([s[0]]) + multiset(CollapseAmpersands(s[1..]));
  }

  /** Without a backslash the first pass changes nothing. */
  lemma CollapseWithoutBackslash(s: string)
    requires '\\' !in s
    ensures CollapseAmpersands(s) == s
  {
    CollapseIsLiteralReplace(s);
    InfixChars("\\&", s, '\\');
    ReplaceWithoutMatch(s, "\\&", "&");
  }

  /** The alternation's `&` branch is the identity, so the first pass is the
      literal rewrite of every `\&` into `&`. */
  lemma {:induction false} CollapseIsLiteralReplace(s: string)
    ensures CollapseAmpersands(s) == Replace(s, "\\&", "&")
    decreases |s|
  {
    if |s| == 0 {
    } else if s[0] == '&' {
      CollapseIsLiteralReplace(s[1..]);
      assert !("\\&" <= s);
    } else if |s| >= 2 && s[0] == '\\' && s[1] == '&' {
      CollapseIsLiteralReplace(s[2..]);
      assert "\\&" <= s;
    } else {
      CollapseIsLiteralReplace(s[1..]);
      assert !("\\&" <= s);
    }
  }

  /** Second pass: every `\$` becomes the sentinel. */
  function Protect(s: string): string {
    Replace(s, "\\$", Sentinel)
  }

  /** Final pass: every sentinel becomes a literal `$`. */
  function Restore(s: string): string {
    Replace(s, Sentinel, "$")
  }

  /** No escaped dollar survives the second pass. */
  lemma ProtectLeavesNoEscape(s: string)
    ensures !IsInfix("\\$", Protect(s))
  {
    ReplaceLeavesNoMatch(s, "\\$", Sentinel);
  }

  /** No sentinel survives the final pass. */
  lemma RestoreLeavesNoSentinel(s: string)
    ensures !IsInfix(Sentinel, Restore(s))
  {
    ReplaceLeavesNoMatch(s, Sentinel, "$");
  }

  /** The sentinel round trip: a text that does not already spell the sentinel
      comes back with each `\$` turned into `$` and nothing else changed. */
  lemma {:induction false} SentinelRoundTrip(s: string)
    requires !IsInfix(Sentinel, s)
    ensures Restore(Protect(s)) == Replace(s, "\\$", "$")
    decreases |s|
  {
    if |s| == 0 {
    } else if "\\$" <= s {
      var tail := Replace(s[2..], "\\$", Sentinel);
      assert !IsInfix(Sentinel, s[1..]);
      assert s[1..][1..] == s[2..];
      SentinelRoundTrip(s[2..]);
      assert Sentinel <= Sentinel + tail;
      assert (Sentinel + tail)[|Sentinel|..] == tail;
    } else {
      var tail := Replace(s[1..], "\\$", Sentinel);
      SentinelRoundTrip(s[1..]);
      PrefixSurvivesReplace(Sentinel[1..], s[1..], "\\$", Sentinel);
      assert !(Sentinel <= s);
      assert s[0] != Sentinel[0] || !(Sentinel[1..] <= s[1..]);
      assert ([s[0]] + tail)[0] == s[0] && ([s[0]] + tail)[1..] == tail;
    }
  }

  /** Third pass: the regular expression `\$([^\$]*)\$` rewritten to `{$1}`.
      From each `$` the match runs to the next `$`; a `$` with no partner
      leaves the rest of the text untouched. */
  function MathToBraces(s: string): string
    decreases |s|
  {
    if |s| == 0 then []
    else if s[0] != '$' then
      assert s == [s[0]] + s[1..];
      [s[0]] + MathToBraces(s[1..])
    else if '$' in s[1..] then
      var j := IndexOf(s[1..], '$');
      "{" + s[1..j + 1] + "}" + MathToBraces(s[j + 2..])
    else
      s
  }

  /** Without a dollar the third pass changes nothing. */
  lemma {:induction false} MathWithoutDollars(s: string)
    requires '$' !in s
    ensures MathToBraces(s) == s
    decreases |s|
  {
    if |s| > 0 {
      assert '$' !in s[1..];
      MathWithoutDollars(s[1..]);
      assert s == [s[0]] + s[1..];
    }
  }

  /** The third pass brings in no character other than braces. */
  lemma {:induction false} MathKeepsAbsentChar(s: string, c: char)
    requires c !in s && !IsBrace(c)
    ensures c !in MathToBraces(s)
    decreases |s|, 1
  {
    if |s| == 0 {
    } else if s[0] != '$' {
      assert c !in s[1..];
      MathKeepsAbsentChar(s[1..], c);
      assert MathToBraces(s) == [s[0]] + MathToBraces(s[1..]);
    } else if '$' in s[1..] {
      MathKeepsAbsentCharAtPair(s, c);
    } else {
      assert MathToBraces(s) == s;
    }
  }

  lemma {:induction false} MathKeepsAbsentCharAtPair(s: string, c: char)
    requires c !in s && !IsBrace(c)
    requires |s| > 0 && s[0] == '$' && '$' in s[1..]
    ensures c !in MathToBraces(s)
    decreases |s|, 0
  {
    var inner, rest := MathPairUnfold(s);
    assert c !in inner && c !in rest;
    MathKeepsAbsentChar(rest, c);
  }

  /** The third pass on a text starting with a matched pair of dollars. */
  lemma MathPairUnfold(s: string) returns (inner: string, rest: string)
    requires |s| > 0 && s[0] == '$' && '$' in s[1..]
    ensures s == "$" + inner + "$" + rest && '$' !in inner
    ensures inner == s[1..|inner| + 1] && rest == s[|inner| + 2..]
    ensures MathToBraces(s) == "{" + inner + "}" + MathToBraces(rest)
  {
    var j := IndexOf(s[1..], '$');
    inner, rest := s[1..j + 1], s[j + 2..];
    assert s == [s[0]] + inner + [s[j + 1]] + rest;
    assert '$' !in inner by {
      forall m | 0 <= m < |inner| ensures inner[m] != '$' {
        assert inner[m] == s[1..][m];
      }
    }
  }

  /** Every `$` but an odd last one is paired off and turned into a brace. */
  lemma {:induction false} MathPairsDollars(s: string)
    ensures multiset(MathToBraces(s))['$'] == multiset(s)['$'] % 2
    decreases |s|, 1
  {
    if |s| == 0 {
    } else if s[0] != '$' {
      MathPairsDollarsAtOther(s);
    } else if '$' in s[1..] {
      MathPairsDollarsAtPair(s);
    } else {
      MathPairsDollarsUnpaired(s);
    }
  }

  lemma {:induction false} MathPairsDollarsAtOther(s: string)
    requires |s| > 0 && s[0] != '$'
    ensures multiset(MathToBraces(s))['$'] == multiset(s)['$'] % 2
    decreases |s|, 0
  {
    MathPairsDollars(s[1..]);
    assert s == [s[0]] + s[1..];
    assert MathToBraces(s) == [s[0]] + MathToBraces(s[1..]);
    assert multiset(s)['$'] == multiset(s[1..])['$'];
  }

  lemma MathPairsDollarsUnpaired(s: string)
    requires |s| > 0 && s[0] == '$' && '$' !in s[1..]
    ensures multiset(MathToBraces(s))['$'] == multiset(s)['$'] % 2
  {
    assert MathToBraces(s) == s;
    assert s == [s[0]] + s[1..];
    assert multiset(s[1..])['$'] == 0;
  }

  lemma {:induction false} MathPairsDollarsAtPair(s: string)
    requires |s| > 0 && s[0] == '$' && '$' in s[1..]
    ensures multiset(MathToBraces(s))['$'] == multiset(s)['$'] % 2
    decreases |s|, 0
  {
    var inner, rest := MathPairUnfold(s);
    MathPairsDollars(rest);
    var n := multiset(rest)['$'];
    assert multiset(inner)['$'] == 0;
    assert multiset(s)['$'] == n + 2;
    assert multiset(MathToBraces(s))['$'] == multiset(MathToBraces(rest))['$'];
    assert (n + 2) % 2 == n % 2;
  }

  /** Reads every brace back as a dollar. */
  function BracesToDollars(s: string): (r: string)
    ensures |r| == |s|
    ensures forall k :: 0 <= k < |s| ==> r[k] == if IsBrace(s[k]) then '$' else s[k]
    ensures (forall k :: 0 <= k < |s| ==> !IsBrace(s[k])) ==> r == s
  {
    seq(|s|, k requires 0 <= k < |s| => if IsBrace(s[k]) then '$' else s[k])
  }

  lemma BracesToDollarsConcat(a: string, b: string)
    ensures BracesToDollars(a + b) == BracesToDollars(a) + BracesToDollars(b)
  {
    assert forall k :: 0 <= k < |a + b| ==> BracesToDollars(a + b)[k] == (BracesToDollars(a) + BracesToDollars(b))[k] by {
      forall k | 0 <= k < |a + b|
        ensures BracesToDollars(a + b)[k] == (BracesToDollars(a) + BracesToDollars(b))[k]
      {
        if k < |a| {
          assert (a + b)[k] == a[k];
        } else {
          assert (a + b)[k] == b[k - |a|];
        }
      }
    }
  }

  /** Undoing the third pass: in a text without braces, turning the produced
      braces back into dollars recovers the original, matched or not. */
  lemma {:induction false} MathRoundTrip(s: string)
    requires forall k :: 0 <= k < |s| ==> !IsBrace(s[k])
    ensures BracesToDollars(MathToBraces(s)) == s
    decreases |s|, 1
  {
    if |s| == 0 {
    } else if s[0] != '$' {
      MathRoundTripAtOther(s);
    } else if '$' in s[1..] {
      MathRoundTripAtPair(s);
    } else {
      assert MathToBraces(s) == s;
    }
  }

  lemma {:induction false} MathRoundTripAtOther(s: string)
    requires forall k :: 0 <= k < |s| ==> !IsBrace(s[k])
    requires |s| > 0 && s[0] != '$'
    ensures BracesToDollars(MathToBraces(s)) == s
    decreases |s|, 0
  {
    MathRoundTrip(s[1..]);
    assert MathToBraces(s) == [s[0]] + MathToBraces(s[1..]);
    BracesToDollarsConcat([s[0]], MathToBraces(s[1..]));
    assert s == [s[0]] + s[1..];
  }

  lemma {:induction false} MathRoundTripAtPair(s: string)
    requires forall k :: 0 <= k < |s| ==> !IsBrace(s[k])
    requires |s| > 0 && s[0] == '$' && '$' in s[1..]
    ensures BracesToDollars(MathToBraces(s)) == s
    decreases |s|, 0
  {
    var inner, rest := MathPairUnfold(s);
    assert forall m :: 0 <= m < |inner| ==> !IsBrace(inner[m]) by {
      assert forall m :: 0 <= m < |inner| ==> inner[m] == s[m + 1];
    }
    assert forall m :: 0 <= m < |rest| ==> !IsBrace(rest[m]) by {
      assert forall m :: 0 <= m < |rest| ==> rest[m] == s[m + |inner| + 2];
    }
    MathRoundTrip(rest);
    GroupToDollars(inner, MathToBraces(rest));
  }

  /** A group whose content has no braces reads back as a dollar pair. */
  lemma GroupToDollars(inner: string, tail: string)
    requires forall m :: 0 <= m < |inner| ==> !IsBrace(inner[m])
    ensures BracesToDollars("{" + inner + "}" + tail) == "$" + inner + "$" + BracesToDollars(tail)
  {
    BracesToDollarsConcat("{" + inner + "}", tail);
    BracesToDollarsConcat("{" + inner, "}");
    BracesToDollarsConcat("{", inner);
    assert BracesToDollars(inner) == inner;
    assert BracesToDollars("{") == "$" && BracesToDollars("}") == "$";
  }
}
