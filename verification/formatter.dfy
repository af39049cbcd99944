/**
 `OOPreFormatter.format` as a whole: the three pre-normalisation passes, the
 scan, and the restoration of escaped dollars; the same computation written as
 the source's loop over mutable variables; and what the formatter does with a
 field that holds no LaTeX commands.
 */
module Formatter {
  import opened Text
  import opened Normalise
  import opened Scanner
  import opened Commands

  /** The field as the scanner sees it. */
  function Prenormalise(s: string): string {
    MathToBraces(Protect(CollapseAmpersands(s)))
  }

  /** The formatter: pre-normalise, scan from the initial state, restore. */
  function Format(env: Env, s: string): string {
    Restore(Run(env, Prenormalise(s), Initial).out)
  }

  /** The source's loop, with its mutable cursor, flags, command buffer and
      output buffer; it computes exactly the formatter. */
  method FormatLoop(env: Env, input: string) returns (result: string)
    ensures result == Format(env, input)
  {
    var field := CollapseAmpersands(input);
    field := Protect(field);
    field := MathToBraces(field);
    var sb: string := [];
    var currentCommand: string := [];
    var escaped := false;
    var incommand := false;
    var i: nat := 0;
    while i < |field|
      invariant Run(env, field, State(i, escaped, incommand, currentCommand, sb)) == Run(env, field, Initial)
      decreases |field| - i
    {
      ghost var st := State(i, escaped, incommand, currentCommand, sb);
      var c := field[i];
      if escaped && c == '\\' {
        sb := sb + "\\";
        escaped := false;
      } else if c == '\\' {
        if incommand {
          sb := sb + Resolve(env, currentCommand);
        }
        escaped := true;
        incommand := true;
        currentCommand := [];
      } else if !incommand && (c == '{' || c == '}') {
        // the brace is swallowed
      } else if IsCommandChar(env, c) {
        i, escaped, incommand, currentCommand, sb := CommandChar(env, field, i, incommand, currentCommand, sb);
      } else {
        i, escaped, incommand, currentCommand, sb := OtherCharacter(env, field, i, incommand, currentCommand, sb);
      }
      i := i + 1;
      assert State(i, escaped, incommand, currentCommand, sb) == Step(env, field, st);
      RunStep(env, field, st);
    }
    result := Restore(sb);
  }

  /** The loop body for a letter, `%` or special character, up to the loop's
      own `i++`: copied outside a command, otherwise added to the name, with
      the accent shorthand's lookahead moving the cursor itself. */
  method CommandChar(env: Env, field: string, i0: nat, incommand0: bool, command0: string, sb0: string)
    returns (i: nat, escaped: bool, incommand: bool, currentCommand: string, sb: string)
    requires i0 < |field| && field[i0] != '\\' && IsCommandChar(env, field[i0])
    requires incommand0 || !IsBrace(field[i0])
    ensures forall e :: State(i + 1, escaped, incommand, currentCommand, sb) == Step(env, field, State(i0, e, incommand0, command0, sb0))
  {
    i, incommand, currentCommand, sb := i0, incommand0, command0, sb0;
    var c := field[i];
    escaped := false;
    if !incommand {
      sb := sb + [c];
    } else {
      currentCommand := currentCommand + [c];
      if |currentCommand| == 1 && currentCommand[0] in env.special {
        if i < |field| - 1 {
          i := i + 1;
          c := field[i];
          var combody: string;
          if c == '{' {
            var part := env.getPart(field, i, false);
            i := i + |part|;
            combody := part;
          } else {
            combody := field[i..i + 1];
          }
          if currentCommand + combody in env.table {
            sb := sb + env.table[currentCommand + combody];
          }
          incommand := false;
          escaped := false;
        }
      } else if i + 1 == |field| {
        sb := sb + Resolve(env, currentCommand);
      }
    }
  }

  /** The loop body for any other character, up to the loop's own `i++`:
      copied outside a command; inside one, whitespace or a brace closes it
      and dispatches on its name, anything else is swallowed; the command
      ends either way. */
  method OtherCharacter(env: Env, field: string, i0: nat, incommand0: bool, command0: string, sb0: string)
    returns (i: nat, escaped: bool, incommand: bool, currentCommand: string, sb: string)
    requires i0 < |field| && field[i0] != '\\' && !IsCommandChar(env, field[i0])
    requires incommand0 || !IsBrace(field[i0])
    ensures forall e :: State(i + 1, escaped, incommand, currentCommand, sb) == Step(env, field, State(i0, e, incommand0, command0, sb0))
  {
    i, currentCommand, sb := i0, command0, sb0;
    var c := field[i];
    if !incommand0 {
      sb := sb + [c];
    } else if env.isWhitespace(c) || c == '{' || c == '}' {
      var command := currentCommand;
      if command in StyleTags {
        var part := env.getPart(field, i, true);
        i := i + |part|;
        sb := sb + StyleTags[command].open + part + StyleTags[command].close;
      } else if c == '{' {
        var part := env.getPart(field, i, true);
        i := i + |part|;
        if command + part in env.table {
          sb := sb + env.table[command + part];
        } else {
          sb := sb + part;
        }
      } else if c == '}' {
        sb := sb + Resolve(env, command);
      } else {
        sb := sb + Resolve(env, command) + " ";
      }
    }
    incommand := false;
    escaped := false;
  }

  /** A field without backslashes holds no command: each pair of dollars is
      dropped together with every brace, all else is copied as it is, and
      only then is the dollar sentinel read back. */
  lemma BackslashFree(env: Env, s: string)
    requires '\\' !in s
    ensures Format(env, s) == Restore(StripBraces(MathToBraces(s)))
  {
    CollapseWithoutBackslash(s);
    InfixChars("\\$", s, '\\');
    ReplaceWithoutMatch(s, "\\$", Sentinel);
    var field := MathToBraces(s);
    MathKeepsAbsentChar(s, '\\');
    assert Prenormalise(s) == field;
    assert field[0..] == field;
    TextRun(env, field, Initial);
    assert [] + StripBraces(field) == StripBraces(field);
  }

  /** Unless the copy spells the dollar sentinel, that last step changes
      nothing. */
  lemma PlainText(env: Env, s: string)
    requires '\\' !in s
    requires !IsInfix(Sentinel, StripBraces(MathToBraces(s)))
    ensures Format(env, s) == StripBraces(MathToBraces(s))
  {
    BackslashFree(env, s);
    ReplaceWithoutMatch(StripBraces(MathToBraces(s)), Sentinel, "$");
  }

  /** Without backslashes and dollars the output is the field with every
      brace removed and all other characters kept in order. */
  lemma PlainTextWithoutDollars(env: Env, s: string)
    requires '\\' !in s && '$' !in s
    requires !IsInfix(Sentinel, StripBraces(s))
    ensures Format(env, s) == StripBraces(s)
  {
    MathWithoutDollars(s);
    PlainText(env, s);
  }
}
