/**
 Worked examples of the formatter on concrete fields, each derived from the
 general lemmas.  The conversion table, the character classes and the
 argument scanner enter only through what each example requires of them.
 */
module Examples {
  import opened Text
  import opened Normalise
  import opened Scanner
  import opened Commands
  import opened Formatter
  import opened Escapes

  /** Plain characters as literal pieces. */
  function Lits(s: string): (ps: seq<Piece>)
    ensures |ps| == |s| && forall k :: 0 <= k < |s| ==> ps[k] == Lit(s[k])
  {
    seq(|s|, k requires 0 <= k < |s| => Lit(s[k]))
  }

  /** Literal pieces spell themselves. */
  lemma {:induction false} SpellLits(s: string, ps: seq<Piece>, amp: string, dollar: string)
    ensures Spell(Lits(s) + ps, amp, dollar) == s + Spell(ps, amp, dollar)
    decreases |s|
  {
    if |s| > 0 {
      SpellLits(s[1..], ps, amp, dollar);
      assert (Lits(s) + ps)[0] == Lit(s[0]);
      assert (Lits(s) + ps)[1..] == Lits(s[1..]) + ps;
      assert s == [s[0]] + s[1..];
    } else {
      assert Lits(s) + ps == ps;
    }
  }

  /** `a{b}c` loses its braces. */
  lemma BareBraces(env: Env)
    ensures Format(env, "a{b}c") == "abc"
  {
    var s := "a{b}c";
    assert StripBraces(s[4..]) == "c";
    assert StripBraces(s[3..]) == "c";
    assert StripBraces(s[2..]) == "bc";
    assert StripBraces(s[1..]) == "bc";
    assert StripBraces(s) == "abc";
    assert !IsInfix(Sentinel, "abc");
    PlainTextWithoutDollars(env, s);
  }

  /** `100\&50` comes out as `100&50`. */
  lemma EscapedAmpersand(env: Env)
    ensures Format(env, "100\\&50") == "100&50"
  {
    var tail := [EscapedAmp, Lit('5'), Lit('0')];
    var ps := [Lit('1'), Lit('0'), Lit('0')] + tail;
    SpellLits("100", tail, "\\&", "\\$");
    SpellLits("100", tail, "&", "$");
    SpellLits("50", [], "\\&", "\\$");
    SpellLits("50", [], "&", "$");
    assert [Lit('5'), Lit('0')] == Lits("50") + [];
    assert tail == [EscapedAmp] + (Lits("50") + []);
    assert Spell(tail, "\\&", "\\$") == "\\&50";
    assert Spell(tail, "&", "$") == "&50";
    assert ps == Lits("100") + tail;
    assert Written(ps) == "100\\&50" && Meant(ps) == "100&50";
    StripBracesWithoutBraces("100&50");
    assert !IsInfix(Sentinel, "100&50");
    EscapesRoundTrip(env, ps);
  }

  /** `\$5` comes out as `$5`. */
  lemma EscapedDollarSign(env: Env)
    ensures Format(env, "\\$5") == "$5"
  {
    var ps := [EscapedDollar, Lit('5')];
    assert Spell(ps[1..], "\\&", "\\$") == "5" && Spell(ps[1..], "&", "$") == "5";
    assert Written(ps) == "\\$5" && Meant(ps) == "$5";
    StripBracesWithoutBraces("$5");
    assert !IsInfix(Sentinel, "$5");
    EscapesRoundTrip(env, ps);
  }

  /** `\\1` comes out as a single backslash: after `\\` the scanner reads a
      new command name, and the digit ends that empty name and is swallowed. */
  lemma SwallowedDigit(env: Env)
    requires Ends(env, '1') && !env.isWhitespace('1')
    ensures Format(env, "\\\\1") == "\\"
  {
    var s := "\\\\1";
    InfixChars("\\&", s, '&');
    CollapseIsLiteralReplace(s);
    ReplaceWithoutMatch(s, "\\&", "&");
    InfixChars("\\$", s, '$');
    ReplaceWithoutMatch(s, "\\$", Sentinel);
    MathWithoutDollars(s);
    assert Prenormalise(s) == s;
    var open := State(2, false, true, [], "\\");
    DoubleBackslash(env, s, Initial);
    assert [] + [] + "\\" == "\\";
    StrayTerminator(env, s, open, []);
    assert Run(env, s, State(3, false, false, [], "\\")) == State(3, false, false, [], "\\");
    InfixChars(Sentinel, "\\", '&');
    ReplaceWithoutMatch("\\", Sentinel, "$");
  }

  /** A sentinel split by braces is joined again by the scan and then read as
      a dollar: `&dol{}lar;` comes out as `$`. */
  lemma SplitSentinel(env: Env)
    ensures Format(env, "&dol{}lar;") == "$"
  {
    var s := "&dol{}lar;";
    assert '\\' !in s && '$' !in s;
    BackslashFree(env, s);
    MathWithoutDollars(s);
    JoinedSentinel();
    assert Sentinel[|Sentinel|..] == [];
  }

  /** The split sentinel with its braces dropped. */
  lemma JoinedSentinel()
    ensures StripBraces("&dol{}lar;") == Sentinel
  {
    assert "&dol" + "{}" + "lar;" == "&dol{}lar;";
    assert "&dol" + "lar;" == Sentinel;
    EmptyGroupDropped("&dol", "lar;");
  }

  /** An empty group between brace-free texts vanishes. */
  lemma EmptyGroupDropped(a: string, b: string)
    requires forall k :: 0 <= k < |a| ==> !IsBrace(a[k])
    requires forall k :: 0 <= k < |b| ==> !IsBrace(b[k])
    ensures StripBraces(a + "{}" + b) == a + b
  {
    var t := "{}" + b;
    var u := "}" + b;
    assert t[0] == '{' && t[1..] == u;
    assert u[0] == '}' && u[1..] == b;
    assert StripBraces(t) == StripBraces(b);
    StripBracesConcat(a, t);
    StripBracesWithoutBraces(a);
    StripBracesWithoutBraces(b);
    assert a + "{}" + b == a + t;
  }
}
