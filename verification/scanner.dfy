/**
 The character scanner at the heart of `OOPreFormatter.format`: a state record
 (cursor, the `escaped` and `incommand` flags, the command accumulator and the
 output buffer), a step function for one iteration of the Java `for` loop, and
 the run of that step to the end of the field.
 */
module Scanner {
  import opened Text

  /** What the formatter takes from the rest of the program.  The conversion
      table is only ever read: it is a value here. */
  datatype Env = Env(
    table: map<string, string>,              // LaTeX command (+ argument) to HTML/Unicode
    special: set<char>,                      // the accent shorthand characters
    isLetter: char -> bool,                  // Character.isLetter
    isWhitespace: char -> bool,              // Character.isWhitespace
    getPart: (string, nat, bool) -> string)  // StringUtil.getPart(text, start, terminateOnEndBraceOnly)

  datatype State = State(i: nat, escaped: bool, incommand: bool, command: string, out: string)

  const Initial: State := State(0, false, false, [], [])

  /** The HTML tags a styling command wraps its argument in. */
  datatype Tag = Tag(open: string, close: string)

  /** The fixed, case-sensitive styling commands. */
  const StyleTags: map<string, Tag> := map[
    "em" := Tag("<em>", "</em>"),
    "emph" := Tag("<em>", "</em>"),
    "it" := Tag("<i>", "</i>"),
    "textit" := Tag("<i>", "</i>"),
    "bf" := Tag("<b>", "</b>"),
    "textbf" := Tag("<b>", "</b>"),
    "textsuperscript" := Tag("<sup>", "</sup>"),
    "textsubscript" := Tag("<sub>", "</sub>"),
    "texttt" := Tag("<tt>", "</tt>"),
    "textsc" := Tag("<smallcaps>", "</smallcaps>"),
    "underline" := Tag("<u>", "</u>"),
    "sout" := Tag("<s>", "</s>")
  ]

  /** Characters that may make up a command name. */
  predicate IsCommandChar(env: Env, c: char) {
    env.isLetter(c) || c == '%' || c in env.special
  }

  /** The table's translation of a key, or the key itself when it has none. */
  function Resolve(env: Env, key: string): string {
    if key in env.table then env.table[key] else key
  }

  /** `escaped` is only ever set together with `incommand` and a fresh,
      empty accumulator. */
  predicate Inv(st: State) {
    st.escaped ==> st.incommand && st.command == []
  }

  /** Not inside a command. */
  predicate Normal(st: State) {
    !st.escaped && !st.incommand
  }

  /** A letter, `%` or special character arriving while a command name is being
      read: it joins the name; a name that is a single special character takes
      the next character or braced part as its argument at once; a name that
      reaches the end of the field is resolved there. */
  function ExtendCommand(env: Env, field: string, st: State, c: char): (r: State)
    requires st.i < |field|
    ensures r.i > st.i && st.out <= r.out
    ensures !r.escaped && r.command == st.command + [c]
  {
    var name := st.command + [c];
    if |name| == 1 && name[0] in env.special then
      if st.i >= |field| - 1 then
        State(st.i + 1, false, true, name, st.out)
      else
        var j := st.i + 1;
        var (arg, k) :=
          if field[j] == '{' then
            var part := env.getPart(field, j, false);
            (part, j + |part|)
          else
            (field[j..j + 1], j);
        var out := if name + arg in env.table then st.out + env.table[name + arg] else st.out;
        State(k + 1, false, false, name, out)
    else if st.i + 1 == |field| then
      State(st.i + 1, false, true, name, st.out + Resolve(env, name))
    else
      State(st.i + 1, false, true, name, st.out)
  }

  /** Any other character.  Outside a command it is copied; inside one,
      whitespace or a brace closes the command and dispatches on its name, and
      anything else is swallowed.  Either way the command ends. */
  function OtherChar(env: Env, field: string, st: State, c: char): (r: State)
    requires st.i < |field|
    ensures r.i > st.i && st.out <= r.out
    ensures !r.escaped && !r.incommand
  {
    if !st.incommand then
      State(st.i + 1, false, false, st.command, st.out + [c])
    else if env.isWhitespace(c) || c == '{' || c == '}' then
      var name := st.command;
      if name in StyleTags then
        var part := env.getPart(field, st.i, true);
        State(st.i + |part| + 1, false, false, name, st.out + StyleTags[name].open + part + StyleTags[name].close)
      else if c == '{' then
        var part := env.getPart(field, st.i, true);
        var emitted := if name + part in env.table then env.table[name + part] else part;
        State(st.i + |part| + 1, false, false, name, st.out + emitted)
      else if c == '}' then
        State(st.i + 1, false, false, name, st.out + Resolve(env, name))
      else
        State(st.i + 1, false, false, name, st.out + Resolve(env, name) + " ")
    else
      State(st.i + 1, false, false, st.command, st.out)
  }

  /** One iteration of the scanning loop, including its `i++`; the cursor
      strictly advances. */
  function Step(env: Env, field: string, st: State): (r: State)
    requires st.i < |field|
    ensures r.i > st.i
  {
    var c := field[st.i];
    if st.escaped && c == '\\' then
      st.(i := st.i + 1, escaped := false, out := st.out + "\\")
    else if c == '\\' then
      var out := if st.incommand then st.out + Resolve(env, st.command) else st.out;
      State(st.i + 1, true, true, [], out)
    else if !st.incommand && IsBrace(c) then
      st.(i := st.i + 1)
    else if IsCommandChar(env, c) then
      if !st.incommand then st.(i := st.i + 1, escaped := false, out := st.out + [c])
      else ExtendCommand(env, field, st, c)
    else
      OtherChar(env, field, st, c)
  }

  /** One iteration only appends to the output and keeps the flag invariant. */
  lemma StepAppendsOnly(env: Env, field: string, st: State)
    requires st.i < |field|
    ensures st.out <= Step(env, field, st).out
    ensures Inv(st) ==> Inv(Step(env, field, st))
  {
  }

  /** The loop run to the end of the field. */
  function Run(env: Env, field: string, st: State): State
    decreases |field| - st.i
  {
    if st.i >= |field| then st else Run(env, field, Step(env, field, st))
  }

  /** The run leaves the cursor at or past the end of the field, never takes
      back output and keeps the flag invariant. */
  lemma {:induction false} RunAppendsOnly(env: Env, field: string, st: State)
    ensures Run(env, field, st).i >= |field|
    ensures st.out <= Run(env, field, st).out
    ensures Inv(st) ==> Inv(Run(env, field, st))
    decreases |field| - st.i
  {
    if st.i < |field| {
      StepAppendsOnly(env, field, st);
      RunAppendsOnly(env, field, Step(env, field, st));
    }
  }
}
