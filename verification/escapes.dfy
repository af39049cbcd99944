/**
 The escapes a field may use for the two characters the formatter treats
 specially outside commands: `\&` for an ampersand and `\$` for a dollar.
 A field is described as a sequence of pieces; the theorem at the end says
 that the formatter turns the field as written into the text the writer meant.
 */
module Escapes {
  import opened Text
  import opened Normalise
  import opened Scanner
  import opened Commands
  import opened Formatter

  /** A piece of a field: a literal character, or an escaped `&` or `$`. */
  datatype Piece = Lit(c: char) | EscapedAmp | EscapedDollar

  /** A literal that is neither a backslash nor a dollar. */
  predicate Plain(c: char) {
    c != '\\' && c != '$'
  }

  predicate AllPlain(s: string) {
    forall k :: 0 <= k < |s| ==> Plain(s[k])
  }

  predicate PlainLits(ps: seq<Piece>) {
    forall k :: 0 <= k < |ps| ==> ps[k].Lit? ==> Plain(ps[k].c)
  }

  /** The pieces spelled out, with `amp` and `dollar` written for the two
      escapes. */
  function Spell(ps: seq<Piece>, amp: string, dollar: string): string
    decreases |ps|
  {
    if |ps| == 0 then []
    else
      var head := match ps[0]
        case Lit(c) => [c]
        case EscapedAmp => amp
        case EscapedDollar => dollar;
      head + Spell(ps[1..], amp, dollar)
  }

  /** The field as written. */
  function Written(ps: seq<Piece>): string {
    Spell(ps, "\\&", "\\$")
  }

  /** The text the writer meant. */
  function Meant(ps: seq<Piece>): string {
    Spell(ps, "&", "$")
  }

  /** The first pass keeps the pieces apart and only unescapes `\&`. */
  lemma {:induction false} CollapseWritten(ps: seq<Piece>)
    requires PlainLits(ps)
    ensures CollapseAmpersands(Written(ps)) == Spell(ps, "&", "\\$")
    decreases |ps|
  {
    if |ps| > 0 {
      var t := Written(ps[1..]);
      assert PlainLits(ps[1..]) by {
        forall k | 0 <= k < |ps[1..]| ensures ps[1..][k].Lit? ==> Plain(ps[1..][k].c) {
          assert ps[1..][k] == ps[k + 1];
        }
      }
      CollapseWritten(ps[1..]);
      match ps[0]
      case Lit(c) =>
        assert Plain(ps[0].c);
        assert ([c] + t)[1..] == t;
      case EscapedAmp =>
        assert ("\\&" + t)[2..] == t;
      case EscapedDollar =>
        assert ("\\$" + t)[1..] == "$" + t;
        assert ("$" + t)[1..] == t;
    }
  }

  /** The second pass turns exactly the escaped dollars into sentinels. */
  lemma {:induction false} ProtectCollapsed(ps: seq<Piece>)
    requires PlainLits(ps)
    ensures Protect(Spell(ps, "&", "\\$")) == Spell(ps, "&", Sentinel)
    decreases |ps|
  {
    if |ps| > 0 {
      var t := Spell(ps[1..], "&", "\\$");
      assert PlainLits(ps[1..]) by {
        forall k | 0 <= k < |ps[1..]| ensures ps[1..][k].Lit? ==> Plain(ps[1..][k].c) {
          assert ps[1..][k] == ps[k + 1];
        }
      }
      ProtectCollapsed(ps[1..]);
      match ps[0]
      case Lit(c) =>
        assert Plain(ps[0].c);
        assert Spell(ps, "&", "\\$") == [c] + t;
        assert Spell(ps, "&", Sentinel) == [c] + Spell(ps[1..], "&", Sentinel);
        assert ([c] + t)[0] == c && ([c] + t)[1..] == t;
        assert !("\\$" <= [c] + t);
      case EscapedAmp =>
        assert ("&" + t)[1..] == t;
      case EscapedDollar =>
        assert ("\\$" + t)[2..] == t;
    }
  }

  /** With the escaped dollars shielded, the field holds no backslash and no
      dollar. */
  lemma {:induction false} ShieldedIsPlain(ps: seq<Piece>)
    requires PlainLits(ps)
    ensures AllPlain(Spell(ps, "&", Sentinel))
    decreases |ps|
  {
    if |ps| > 0 {
      assert PlainLits(ps[1..]) by {
        forall k | 0 <= k < |ps[1..]| ensures ps[1..][k].Lit? ==> Plain(ps[1..][k].c) {
          assert ps[1..][k] == ps[k + 1];
        }
      }
      ShieldedIsPlain(ps[1..]);
      var head := match ps[0] case Lit(c) => [c] case EscapedAmp => "&" case EscapedDollar => Sentinel;
      var rest := Spell(ps[1..], "&", Sentinel);
      assert AllPlain(rest);
      var f := Spell(ps, "&", Sentinel);
      assert f == head + rest;
      assert '\\' !in head && '$' !in head by {
        assert ps[0].Lit? ==> Plain(ps[0].c);
      }
      forall k | 0 <= k < |f| ensures Plain(f[k]) {
        if k < |head| {
          assert f[k] == head[k] && head[k] in head;
          assert Plain(head[k]);
        } else {
          assert f[k] == rest[k - |head|];
          assert Plain(rest[k - |head|]);
        }
      }
    }
  }

  /** A sentinel read off the shielded field before its first shielded dollar
      is already in the meant text. */
  lemma {:induction false} SpelledSentinel(w: string, ps: seq<Piece>)
    requires '$' !in w && (|w| > 0 ==> '&' !in w[1..])
    requires |w| > 0 && |ps| > 0 ==> !ps[0].EscapedDollar?
    ensures w <= Spell(ps, "&", Sentinel) ==> w <= Meant(ps)
    decreases |ps|
  {
    if |w| > 0 && |ps| > 0 {
      var head := if ps[0].Lit? then [ps[0].c] else "&";
      var s := Spell(ps[1..], "&", Sentinel);
      assert Spell(ps, "&", Sentinel) == head + s;
      assert Meant(ps) == head + Meant(ps[1..]);
      var v := w[1..];
      if |v| > 0 && |ps[1..]| > 0 && ps[1..][0].EscapedDollar? {
        assert s[0] == '&' && v[0] == w[1] && v[0] != '&';
      } else {
        assert |v| > 0 ==> v[1..] == w[2..];
        SpelledSentinel(v, ps[1..]);
      }
    }
  }

  /** The final pass brings back exactly the shielded dollars, provided the
      meant text does not itself spell the sentinel. */
  lemma {:induction false} RestoreShielded(ps: seq<Piece>)
    requires PlainLits(ps)
    requires !IsInfix(Sentinel, Meant(ps))
    ensures Restore(Spell(ps, "&", Sentinel)) == Meant(ps)
    decreases |ps|
  {
    if |ps| > 0 {
      var s := Spell(ps[1..], "&", Sentinel);
      var m := Meant(ps[1..]);
      var head := match ps[0] case Lit(c) => [c] case EscapedAmp => "&" case EscapedDollar => "$";
      assert Meant(ps) == head + m;
      assert PlainLits(ps[1..]) by {
        forall k | 0 <= k < |ps[1..]| ensures ps[1..][k].Lit? ==> Plain(ps[1..][k].c) {
          assert ps[1..][k] == ps[k + 1];
        }
      }
      assert !IsInfix(Sentinel, m) by {
        if IsInfix(Sentinel, m) {
          InfixExtends(Sentinel, head, m);
        }
      }
      RestoreShielded(ps[1..]);
      if ps[0].EscapedDollar? {
        assert Spell(ps, "&", Sentinel) == Sentinel + s;
        assert (Sentinel + s)[|Sentinel|..] == s;
      } else {
        var f := Spell(ps, "&", Sentinel);
        assert f == head + s;
        SpelledSentinel(Sentinel, ps);
        assert !(Sentinel <= Meant(ps));
        assert f[1..] == s;
      }
    }
  }

  /** The pieces with every literal brace left out. */
  function Unbraced(ps: seq<Piece>): seq<Piece>
    decreases |ps|
  {
    if |ps| == 0 then []
    else (if ps[0].Lit? && IsBrace(ps[0].c) then [] else [ps[0]]) + Unbraced(ps[1..])
  }

  /** Leaving out the literal braces keeps the literals plain. */
  lemma {:induction false} UnbracedIsPlain(ps: seq<Piece>)
    requires PlainLits(ps)
    ensures PlainLits(Unbraced(ps))
    decreases |ps|
  {
    if |ps| > 0 {
      assert PlainLits(ps[1..]) by {
        forall k | 0 <= k < |ps[1..]| ensures ps[1..][k].Lit? ==> Plain(ps[1..][k].c) {
          assert ps[1..][k] == ps[k + 1];
        }
      }
      UnbracedIsPlain(ps[1..]);
      var head := if ps[0].Lit? && IsBrace(ps[0].c) then [] else [ps[0]];
      var rest := Unbraced(ps[1..]);
      assert head == [] || head[0] == ps[0];
      forall k | 0 <= k < |head + rest| ensures (head + rest)[k].Lit? ==> Plain((head + rest)[k].c) {
        if k >= |head| {
          assert (head + rest)[k] == rest[k - |head|];
        }
      }
    }
  }

  /** Dropping the braces of a spelled field is spelling it without its
      literal braces, when neither escape is spelled with a brace. */
  lemma {:induction false} StripSpell(ps: seq<Piece>, amp: string, dollar: string)
    requires forall k :: 0 <= k < |amp| ==> !IsBrace(amp[k])
    requires forall k :: 0 <= k < |dollar| ==> !IsBrace(dollar[k])
    ensures StripBraces(Spell(ps, amp, dollar)) == Spell(Unbraced(ps), amp, dollar)
    decreases |ps|
  {
    if |ps| > 0 {
      var head := match ps[0] case Lit(c) => [c] case EscapedAmp => amp case EscapedDollar => dollar;
      var rest := Spell(ps[1..], amp, dollar);
      StripSpell(ps[1..], amp, dollar);
      StripBracesConcat(head, rest);
      if ps[0].Lit? && IsBrace(ps[0].c) {
        assert StripBraces(head) == [];
        assert Unbraced(ps) == Unbraced(ps[1..]);
      } else {
        assert StripBraces(head) == head by {
          StripBracesWithoutBraces(head);
        }
        var u := [ps[0]] + Unbraced(ps[1..]);
        assert Unbraced(ps) == u;
        assert u[0] == ps[0] && u[1..] == Unbraced(ps[1..]);
      }
    }
  }

  /** The escapes theorem: a field written with plain characters, braces,
      `\&` and `\$` comes out as the text the writer meant without its braces,
      whatever the conversion table, as long as that text does not spell the
      dollar sentinel. */
  lemma EscapesRoundTrip(env: Env, ps: seq<Piece>)
    requires PlainLits(ps)
    requires !IsInfix(Sentinel, StripBraces(Meant(ps)))
    ensures Format(env, Written(ps)) == StripBraces(Meant(ps))
  {
    var field := Spell(ps, "&", Sentinel);
    CollapseWritten(ps);
    ProtectCollapsed(ps);
    ShieldedIsPlain(ps);
    MathWithoutDollars(field);
    assert Prenormalise(Written(ps)) == field;
    assert field[0..] == field;
    TextRun(env, field, Initial);
    assert [] + StripBraces(field) == StripBraces(field);
    StripSpell(ps, "&", Sentinel);
    StripSpell(ps, "&", "$");
    UnbracedIsPlain(ps);
    RestoreShielded(Unbraced(ps));
  }
}
