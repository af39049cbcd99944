/**
 What the scanner does with each kind of input it meets: plain text, `\\`,
 a command name and the character that ends it, and the one-character accent
 shorthands.  Each lemma says what the run emits for that stretch of the field
 and from which state it carries on.
 */
module Commands {
  import opened Text
  import opened Scanner

  /** The characters of a command name: command characters, none a backslash. */
  predicate NameChars(env: Env, name: string) {
    forall k :: 0 <= k < |name| ==> name[k] != '\\' && IsCommandChar(env, name[k])
  }

  /** A command has just been opened by a backslash and its name is still
      empty; `escaped` says whether that backslash came last. */
  predicate Opening(st: State) {
    st.incommand && st.command == []
  }

  /** From `i` on, the field spells the name `name` (possibly empty, not
      starting with an accent shorthand), and at least one more character
      follows it. */
  predicate NameAhead(env: Env, field: string, i: nat, name: string) {
    && NameChars(env, name) && (|name| > 0 ==> name[0] !in env.special)
    && i + |name| < |field| && NameAt(field, i, name)
  }

  /** `name` is spelled out in `field` from position `a` on. */
  predicate NameAt(field: string, a: nat, name: string) {
    a + |name| <= |field| && forall k :: 0 <= k < |name| ==> field[a + k] == name[k]
  }

  /** A character that ends a command name instead of joining it. */
  predicate Ends(env: Env, t: char) {
    !IsCommandChar(env, t) && t != '\\'
  }

  // One iteration in each situation the lemmas below meet.

  lemma StepOutsideText(env: Env, field: string, st: State)
    requires Normal(st) && st.i < |field| && field[st.i] != '\\'
    ensures var c := field[st.i];
            Step(env, field, st) == st.(i := st.i + 1, out := st.out + if IsBrace(c) then [] else [c])
  {
  }

  lemma StepBackslash(env: Env, field: string, st: State)
    requires !st.escaped && st.i < |field| && field[st.i] == '\\'
    ensures var closed := if st.incommand then Resolve(env, st.command) else [];
            Step(env, field, st) == State(st.i + 1, true, true, [], st.out + closed)
  {
  }

  lemma StepNameChar(env: Env, field: string, st: State)
    requires st.incommand && Inv(st) && st.i < |field|
    requires var c := field[st.i]; c != '\\' && IsCommandChar(env, c) && !(st.command == [] && c in env.special)
    ensures var name := st.command + [field[st.i]];
            Step(env, field, st) ==
              if st.i + 1 == |field| then State(st.i + 1, false, true, name, st.out + Resolve(env, name))
              else State(st.i + 1, false, true, name, st.out)
  {
  }

  lemma StepTerminator(env: Env, field: string, st: State)
    requires st.incommand && st.i < |field| && Ends(env, field[st.i])
    ensures Step(env, field, st) == OtherChar(env, field, st.(escaped := false), field[st.i])
  {
  }

  lemma StepAccent(env: Env, field: string, st: State)
    requires Opening(st) && st.i < |field|
    requires var c := field[st.i]; c != '\\' && c in env.special
    ensures Step(env, field, st) == ExtendCommand(env, field, st.(escaped := false), field[st.i])
  {
  }

  /** The run carries on from the state after one step. */
  lemma RunStep(env: Env, field: string, st: State)
    requires st.i < |field|
    ensures Run(env, field, st) == Run(env, field, Step(env, field, st))
  {
  }

  /** Outside a command, a stretch without backslashes is copied to the output
      with its braces dropped. */
  lemma {:induction false} TextRun(env: Env, field: string, st: State)
    requires Normal(st) && st.i <= |field|
    requires forall k :: st.i <= k < |field| ==> field[k] != '\\'
    ensures Run(env, field, st).out == st.out + StripBraces(field[st.i..])
    decreases |field| - st.i
  {
    if st.i < |field| {
      var c := field[st.i];
      var head := if IsBrace(c) then [] else [c];
      var next := st.(i := st.i + 1, out := st.out + head);
      TextStep(env, field, st);
      TextRun(env, field, next);
      StripBracesStep(field, st.i);
      assert st.out + head + StripBraces(field[st.i + 1..]) == st.out + (head + StripBraces(field[st.i + 1..]));
    }
  }

  lemma TextStep(env: Env, field: string, st: State)
    requires Normal(st) && st.i < |field| && field[st.i] != '\\'
    ensures var c := field[st.i];
            Run(env, field, st) == Run(env, field, st.(i := st.i + 1, out := st.out + if IsBrace(c) then [] else [c]))
  {
    RunStep(env, field, st);
    StepOutsideText(env, field, st);
  }

  lemma StripBracesStep(field: string, i: nat)
    requires i < |field|
    ensures StripBraces(field[i..]) == (if IsBrace(field[i]) then [] else [field[i]]) + StripBraces(field[i + 1..])
  {
    assert field[i..][0] == field[i] && field[i..][1..] == field[i + 1..];
  }

  /** `\\` emits one backslash (after closing any command already open) and
      leaves the scanner reading a new, still empty command name. */
  lemma DoubleBackslash(env: Env, field: string, st: State)
    requires !st.escaped && st.i + 1 < |field|
    requires field[st.i] == '\\' && field[st.i + 1] == '\\'
    ensures var closed := if st.incommand then Resolve(env, st.command) else [];
            Run(env, field, st) == Run(env, field, State(st.i + 2, false, true, [], st.out + closed + "\\"))
  {
    var closed := if st.incommand then Resolve(env, st.command) else [];
    var next := State(st.i + 1, true, true, [], st.out + closed);
    RunStep(env, field, st);
    StepBackslash(env, field, st);
    RunStep(env, field, next);
    assert Step(env, field, next) == State(st.i + 2, false, true, [], st.out + closed + "\\");
  }

  /** Reading the characters of a command name only accumulates them. */
  lemma {:induction false} ReadName(env: Env, field: string, st: State, rest: string)
    requires st.incommand && Inv(st)
    requires |rest| > 0 && st.i + |rest| < |field|
    requires NameAt(field, st.i, rest)
    requires NameChars(env, rest)
    requires st.command == [] ==> rest[0] !in env.special
    ensures Run(env, field, st) == Run(env, field, State(st.i + |rest|, false, true, st.command + rest, st.out))
    decreases |rest|
  {
    var c := rest[0];
    assert field[st.i + 0] == c;
    var next := State(st.i + 1, false, true, st.command + [c], st.out);
    RunStep(env, field, st);
    StepNameChar(env, field, st);
    if |rest| > 1 {
      assert NameAt(field, next.i, rest[1..]) by {
        forall k | 0 <= k < |rest[1..]| ensures field[next.i + k] == rest[1..][k] {
          assert field[st.i + (k + 1)] == rest[k + 1];
        }
      }
      ReadName(env, field, next, rest[1..]);
      assert st.command + [c] + rest[1..] == st.command + rest;
    } else {
      assert [c] == rest;
    }
  }


  /** Outside a command, a backslash emits nothing and opens a command whose
      name is still empty. */
  lemma EnterCommand(env: Env, field: string, st: State)
    requires Normal(st) && st.i < |field| && field[st.i] == '\\'
    ensures Run(env, field, st) == Run(env, field, State(st.i + 1, true, true, [], st.out))
  {
    RunStep(env, field, st);
    StepBackslash(env, field, st);
    assert st.out + [] == st.out;
  }

  /** In a just-opened command, the characters of a name only accumulate. */
  lemma ReadCommand(env: Env, field: string, st: State, name: string)
    requires Opening(st) && NameAhead(env, field, st.i, name) && |name| > 0
    ensures Run(env, field, st) == Run(env, field, State(st.i + |name|, false, true, name, st.out))
  {
    ReadName(env, field, st, name);
    assert st.command + name == name;
  }

  /** A just-opened command, its name and a terminating character: the run
      goes on from the state the terminator leaves behind. */
  lemma Terminate(env: Env, field: string, st: State, name: string)
    requires Opening(st) && NameAhead(env, field, st.i, name)
    requires Ends(env, field[st.i + |name|])
    ensures var at := State(st.i + |name|, false, true, name, st.out);
            Run(env, field, st) == Run(env, field, OtherChar(env, field, at, field[at.i]))
  {
    var at := State(st.i + |name|, false, true, name, st.out);
    if |name| > 0 {
      ReadCommand(env, field, st, name);
      RunStep(env, field, at);
      StepTerminator(env, field, at);
    } else {
      RunStep(env, field, st);
      StepTerminator(env, field, st);
      assert st.(escaped := false) == at;
    }
  }

  /** A styling command ended by whitespace or a brace emits its opening tag,
      the part `getPart` returns and its closing tag, and the cursor skips
      that part. */
  lemma StyledCommand(env: Env, field: string, st: State, name: string)
    requires Opening(st) && NameAhead(env, field, st.i, name)
    requires name in StyleTags
    requires var t := field[st.i + |name|]; Ends(env, t) && (env.isWhitespace(t) || IsBrace(t))
    ensures var j := st.i + |name|;
            var part := env.getPart(field, j, true);
            var tag := StyleTags[name];
            Run(env, field, st) == Run(env, field, State(j + |part| + 1, false, false, name, st.out + tag.open + part + tag.close))
  {
    Terminate(env, field, st, name);
  }

  /** Any other command ended by `{` emits the table's entry for name plus
      argument, or else the bare argument; the name itself is never emitted. */
  lemma BracedArgument(env: Env, field: string, st: State, name: string)
    requires Opening(st) && NameAhead(env, field, st.i, name)
    requires name !in StyleTags && field[st.i + |name|] == '{' && Ends(env, '{')
    ensures var j := st.i + |name|;
            var part := env.getPart(field, j, true);
            var emitted := if name + part in env.table then env.table[name + part] else part;
            Run(env, field, st) == Run(env, field, State(j + |part| + 1, false, false, name, st.out + emitted))
  {
    Terminate(env, field, st, name);
  }

  /** A command ended by `}` (as in `{\aa}`) emits its translation or its
      name; the brace is swallowed. */
  lemma ClosedByBrace(env: Env, field: string, st: State, name: string)
    requires Opening(st) && NameAhead(env, field, st.i, name)
    requires name !in StyleTags && field[st.i + |name|] == '}' && Ends(env, '}')
    ensures Run(env, field, st) == Run(env, field, State(st.i + |name| + 1, false, false, name, st.out + Resolve(env, name)))
  {
    Terminate(env, field, st, name);
  }

  /** A command ended by whitespace emits its translation or its name, and
      exactly one space in place of the whitespace. */
  lemma ClosedBySpace(env: Env, field: string, st: State, name: string)
    requires Opening(st) && NameAhead(env, field, st.i, name)
    requires var t := field[st.i + |name|]; Ends(env, t) && env.isWhitespace(t) && !IsBrace(t)
    requires name !in StyleTags
    ensures Run(env, field, st) == Run(env, field, State(st.i + |name| + 1, false, false, name, st.out + Resolve(env, name) + " "))
  {
    Terminate(env, field, st, name);
  }

  /** A command ended by a character that is neither a command character,
      whitespace, a brace nor a backslash (a digit, say) emits nothing: neither
      the name nor that character. */
  lemma StrayTerminator(env: Env, field: string, st: State, name: string)
    requires Opening(st) && NameAhead(env, field, st.i, name)
    requires var t := field[st.i + |name|]; Ends(env, t) && !env.isWhitespace(t) && !IsBrace(t)
    ensures Run(env, field, st) == Run(env, field, State(st.i + |name| + 1, false, false, name, st.out))
  {
    Terminate(env, field, st, name);
  }

  /** A command ended by another backslash emits its translation or its name,
      styling command or not, and a new command begins.  (Right after the
      opening backslash, a second one is the `\\` escape instead.) */
  lemma ClosedByBackslash(env: Env, field: string, st: State, name: string)
    requires Opening(st) && NameAhead(env, field, st.i, name)
    requires field[st.i + |name|] == '\\' && !(st.escaped && name == [])
    ensures Run(env, field, st) == Run(env, field, State(st.i + |name| + 1, true, true, [], st.out + Resolve(env, name)))
  {
    var at := State(st.i + |name|, false, true, name, st.out);
    if |name| > 0 {
      ReadCommand(env, field, st, name);
    } else {
      assert st == at;
    }
    RunStep(env, field, at);
    StepBackslash(env, field, at);
  }

  /** A name that ends the field is its first characters followed by its
      last one. */
  lemma SplitLast(field: string, a: nat, name: string)
    requires |name| > 0 && a + |name| == |field| && NameAt(field, a, name)
    ensures NameAt(field, a, name[..|name| - 1])
    ensures field[|field| - 1] == name[|name| - 1]
  {
    assert field[a + (|name| - 1)] == name[|name| - 1];
  }

  /** The last character of the field completes a command name, which is
      resolved there. */
  lemma RunLastNameChar(env: Env, field: string, st: State)
    requires st.incommand && Inv(st) && st.i + 1 == |field|
    requires var c := field[st.i]; c != '\\' && IsCommandChar(env, c) && !(st.command == [] && c in env.special)
    ensures var name := st.command + [field[st.i]];
            Run(env, field, st) == State(|field|, false, true, name, st.out + Resolve(env, name))
  {
    var name := st.command + [field[st.i]];
    var done := State(|field|, false, true, name, st.out + Resolve(env, name));
    RunStep(env, field, st);
    StepNameChar(env, field, st);
    assert Run(env, field, done) == done;
  }

  /** A name of two or more characters that runs to the end of the field is
      read and then resolved. */
  lemma NameToEnd(env: Env, field: string, st: State, name: string)
    requires Opening(st)
    requires |name| > 1 && NameChars(env, name) && name[0] !in env.special
    requires st.i + |name| == |field| && NameAt(field, st.i, name)
    ensures Run(env, field, st) == State(|field|, false, true, name, st.out + Resolve(env, name))
  {
    var init := name[..|name| - 1];
    SplitLast(field, st.i, name);
    ReadAllButLast(env, field, st, name);
    LastOfName(env, field, State(|field| - 1, false, true, init, st.out), name);
  }

  lemma ReadAllButLast(env: Env, field: string, st: State, name: string)
    requires Opening(st)
    requires |name| > 1 && NameChars(env, name) && name[0] !in env.special
    requires st.i + |name| == |field| && NameAt(field, st.i, name[..|name| - 1])
    ensures Run(env, field, st) == Run(env, field, State(|field| - 1, false, true, name[..|name| - 1], st.out))
  {
    var init := name[..|name| - 1];
    ReadName(env, field, st, init);
    assert [] + init == init;
  }

  lemma LastOfName(env: Env, field: string, before: State, name: string)
    requires |name| > 1 && NameChars(env, name) && |field| > 0
    requires before == State(|field| - 1, false, true, name[..|name| - 1], before.out)
    requires field[|field| - 1] == name[|name| - 1]
    ensures Run(env, field, before) == State(|field|, false, true, name, before.out + Resolve(env, name))
  {
    var c := name[|name| - 1];
    assert c != '\\' && IsCommandChar(env, c);
    assert name[..|name| - 1] + [c] == name;
    RunLastNameChar(env, field, before);
  }

  /** A command whose name runs to the end of the field emits its translation
      or its name, and the scan is over. */
  lemma ClosedByEnd(env: Env, field: string, st: State, name: string)
    requires Opening(st)
    requires |name| > 0 && NameChars(env, name) && name[0] !in env.special
    requires st.i + |name| == |field| && NameAt(field, st.i, name)
    ensures Run(env, field, st) == State(|field|, false, true, name, st.out + Resolve(env, name))
  {
    if |name| > 1 {
      NameToEnd(env, field, st, name);
    } else {
      assert field[st.i + 0] == name[0];
      RunLastNameChar(env, field, st);
      assert [] + [name[0]] == name;
    }
  }

  /** The accent shorthand's own step: with a character after it, the
      shorthand takes that character, or the braced part `getPart` returns
      from there, as its argument and closes at once. */
  lemma AccentStep(env: Env, field: string, st: State, c: char)
    requires st.command == [] && c in env.special && st.i + 1 < |field|
    ensures var j := st.i + 1;
            var arg := if field[j] == '{' then env.getPart(field, j, false) else [field[j]];
            var k := if field[j] == '{' then j + |arg| else j;
            var out := if [c] + arg in env.table then st.out + env.table[[c] + arg] else st.out;
            ExtendCommand(env, field, st, c) == State(k + 1, false, false, [c], out)
  {
    var j := st.i + 1;
    assert st.command + [c] == [c];
    assert field[j..j + 1] == [field[j]];
  }

  /** An accent shorthand read as the first character of a just-opened
      command. */
  lemma EnterAccent(env: Env, field: string, st: State)
    requires Opening(st) && st.i < |field|
    requires field[st.i] in env.special && field[st.i] != '\\'
    ensures Run(env, field, st) == Run(env, field, ExtendCommand(env, field, st.(escaped := false), field[st.i]))
  {
    RunStep(env, field, st);
    StepAccent(env, field, st);
  }

  /** An accent shorthand such as `\'e`: the single character after it is the
      argument; the table's entry for the pair is emitted, or nothing at all. */
  lemma AccentWithChar(env: Env, field: string, st: State)
    requires Opening(st) && st.i + 1 < |field|
    requires field[st.i] in env.special && field[st.i] != '\\'
    requires field[st.i + 1] != '{'
    ensures var key := [field[st.i], field[st.i + 1]];
            var emitted := if key in env.table then env.table[key] else [];
            Run(env, field, st) == Run(env, field, State(st.i + 2, false, false, [field[st.i]], st.out + emitted))
  {
    EnterAccent(env, field, st);
    AccentStep(env, field, st.(escaped := false), field[st.i]);
    assert [field[st.i]] + [field[st.i + 1]] == [field[st.i], field[st.i + 1]];
    assert st.out + [] == st.out;
  }

  /** An accent shorthand such as `\'{e}`: the part `getPart` returns is the
      argument, the cursor skips it, and the table's entry for the pair is
      emitted, or nothing at all. */
  lemma AccentWithBraces(env: Env, field: string, st: State)
    requires Opening(st) && st.i + 1 < |field|
    requires field[st.i] in env.special && field[st.i] != '\\'
    requires field[st.i + 1] == '{'
    ensures var part := env.getPart(field, st.i + 1, false);
            var key := [field[st.i]] + part;
            var emitted := if key in env.table then env.table[key] else [];
            Run(env, field, st) == Run(env, field, State(st.i + 2 + |part|, false, false, [field[st.i]], st.out + emitted))
  {
    EnterAccent(env, field, st);
    AccentStep(env, field, st.(escaped := false), field[st.i]);
    assert st.out + [] == st.out;
  }

  /** An accent shorthand with nothing after it emits nothing. */
  lemma AccentAtEnd(env: Env, field: string, st: State)
    requires Opening(st) && st.i + 1 == |field|
    requires field[st.i] in env.special && field[st.i] != '\\'
    ensures Run(env, field, st) == State(|field|, false, true, [field[st.i]], st.out)
  {
    var done := State(|field|, false, true, [field[st.i]], st.out);
    EnterAccent(env, field, st);
    assert [] + [field[st.i]] == [field[st.i]];
    assert ExtendCommand(env, field, st.(escaped := false), field[st.i]) == done;
    assert Run(env, field, done) == done;
  }
}
