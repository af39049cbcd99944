# OOPreFormatter in Dafny

A model of JabRef's `OOPreFormatter.format`. It turns the LaTeX subset found in
bibliography fields into the HTML/Unicode text used for OpenOffice/LibreOffice
citations. The formatter works in three stages:

1. **Pre-normalisation.** Three rewrites run in order:
   - `&` and `\&` become `&`.
   - `\$` becomes the sentinel `&dollar;`.
   - Each `$…$` becomes `{…}`.
2. **Scan.** A single left-to-right scan is driven by two flags, `escaped` and
   `incommand`, plus a command-name buffer. Each closed command is resolved
   through the conversion table, by its name or by its name plus argument. It
   emits one of:
   - a fixed HTML tag pair;
   - the table entry;
   - the literal name;
   - the bare argument;
   - nothing.
3. **Restoration.** The sentinel is turned back into `$`.

Modules:

- `Text` (`text.dfy`) provides shared string utilities:
  - `IsInfix`, for pattern occurrence.
  - `Replace`, which is Java's literal `String.replace`.
  - `IndexOf`.
  - `StripBraces`, a reference definition of "drop every brace".
- `Normalise` (`normalise.dfy`) holds the three pre-normalisation passes and
  `Restore`.
  - The regular expression `&|\\&` is modelled as a left-to-right alternation
    (`CollapseAmpersands`).
  - The regular expression `\$([^\$]*)\$` is modelled as a pairing of each
    `$` with the next one (`MathToBraces`).
  - Each of these gets an independent characterisation: a literal
    replacement, a parity law, and a round trip.
- `Scanner` (`scanner.dfy`) holds the scan itself:
  - the `State` record: cursor, `escaped`, `incommand`, command buffer and
    output buffer;
  - `Step`, one iteration of the `for` loop including its `i++`;
  - `Run`, the loop run to the end of the field, terminating on
    `|field| - i`.
  - The formatter's collaborators are bundled in an `Env` value: the
    conversion table, the special-character set, `Character.isLetter`,
    `Character.isWhitespace` and `StringUtil.getPart`.
- `Commands` (`commands.dfy`) says, for each kind of input, what the scan
  emits and in which state it carries on:
  - plain text;
  - `\\`;
  - a command closed by whitespace, `{`, `}`, another backslash, the end of
    the field, or a stray character;
  - a styling command;
  - an accent shorthand.

  Every command lemma starts from a just-opened command (`Opening`: in a
  command, name still empty, `escaped` either way). The scanner reaches that
  state in three ways: a backslash met outside a command (`EnterCommand`),
  `\\` (`DoubleBackslash`), and a command closed by a backslash
  (`ClosedByBackslash`). So `\\textbf{x}` and `\foo\'e` are covered as well
  as `\textbf{x}`.
- `Formatter` (`formatter.dfy`) contains:
  - `Format`, the whole pipeline;
  - `FormatLoop`, the source's imperative loop over mutable variables, proved
    equal to `Format`;
  - the plain-text theorems.
- `Escapes` (`escapes.dfy`) contains the end-to-end theorem for the escapes
  `\&` and `\$`.
- `Examples` (`examples.dfy`) contains concrete fields and what the formatter
  makes of them.

Three corners of the scanner's behaviour are worth knowing:

- After `\\` the code emits one backslash and clears `escaped`, but
  `incommand` stays set with an empty name. Text right after `\\` is therefore
  read as a command name. For example, the digit in `\\1` is swallowed
  (`DoubleBackslash`, `StrayTerminator`, `Examples.SwallowedDigit`).
- A command ended by a character that is neither whitespace, a brace, a
  backslash nor a command character emits nothing. Neither the name nor that
  character is emitted, and no space is added (`StrayTerminator`, lines
  213-226). Only whitespace adds the single space.
- The sentinel is read back only after braces are dropped, so a sentinel
  split by braces is still read as a dollar: `&dol{}lar;` comes out as `$`
  (`Formatter.BackslashFree`, `Examples.SplitSentinel`). The plain-text
  theorems therefore put their "no `&dollar;`" condition on the brace-free
  text.

## Model

| member | source | states |
|---|---|---|
| `Normalise.CollapseIsLiteralReplace` | src/main/java/net/sf/jabref/openoffice/OOPreFormatter.java:37 | The `&\|\\&` rewrite equals the literal replacement of every `\&` by `&`, so a lone `&` is never changed. |
| `Normalise.CollapseOnlyDropsBackslashes` | src/main/java/net/sf/jabref/openoffice/OOPreFormatter.java:37 | The first pass keeps the count of every character except the backslash, and never adds backslashes. |
| `Normalise.CollapseWithoutBackslash` | src/main/java/net/sf/jabref/openoffice/OOPreFormatter.java:37 | A field without a backslash passes the first pass unchanged. |
| `Normalise.ProtectLeavesNoEscape` | src/main/java/net/sf/jabref/openoffice/OOPreFormatter.java:38 | After the second pass no `\$` remains. |
| `Normalise.SentinelRoundTrip` | src/main/java/net/sf/jabref/openoffice/OOPreFormatter.java:38 | Protecting with `&dollar;` and restoring turns each `\$` into `$` and changes nothing else, provided the text does not already spell `&dollar;`. |
| `Normalise.RestoreLeavesNoSentinel` | src/main/java/net/sf/jabref/openoffice/OOPreFormatter.java:230 | After the final replacement no `&dollar;` remains in the output. |
| `Normalise.MathPairUnfold` | src/main/java/net/sf/jabref/openoffice/OOPreFormatter.java:39 | A `$` with a later partner matches up to the next `$`, with no `$` inside. That span becomes `{…}` and rewriting resumes right after the closing `$`. |
| `Normalise.MathWithoutDollars` | src/main/java/net/sf/jabref/openoffice/OOPreFormatter.java:39 | A text without `$` passes the third pass unchanged. |
| `Normalise.MathKeepsAbsentChar` | src/main/java/net/sf/jabref/openoffice/OOPreFormatter.java:39 | The third pass introduces no character other than braces. |
| `Normalise.MathPairsDollars` | src/main/java/net/sf/jabref/openoffice/OOPreFormatter.java:39 | Dollars are paired off: at most one `$` (the odd last one) survives, according to the parity of the original count. |
| `Normalise.MathRoundTrip` | src/main/java/net/sf/jabref/openoffice/OOPreFormatter.java:39 | In a text without braces, reading every produced brace back as `$` recovers the original text, matched or unmatched. |
| `Scanner.ExtendCommand` | src/main/java/net/sf/jabref/openoffice/OOPreFormatter.java:71-123 | A command character inside a command advances the cursor, only appends output, clears `escaped` and extends the name by that character. |
| `Scanner.OtherChar` | src/main/java/net/sf/jabref/openoffice/OOPreFormatter.java:124-227 | Any other character advances the cursor, only appends output, and leaves both flags cleared. |
| `Scanner.Step` | src/main/java/net/sf/jabref/openoffice/OOPreFormatter.java:48-228 | Every iteration strictly advances the cursor, since all jumps are non-negative. |
| `Scanner.StepAppendsOnly` | src/main/java/net/sf/jabref/openoffice/OOPreFormatter.java:48-228 | One iteration never takes back output and keeps "escaped implies in a command with an empty name". |
| `Scanner.RunAppendsOnly` | src/main/java/net/sf/jabref/openoffice/OOPreFormatter.java:48-228 | The loop ends with the cursor at or past the end; output only grows; the flag invariant holds throughout. |
| `Commands.TextRun` | src/main/java/net/sf/jabref/openoffice/OOPreFormatter.java:67-74 | Outside a command, a stretch without backslashes is copied with every brace dropped. |
| `Commands.DoubleBackslash` | src/main/java/net/sf/jabref/openoffice/OOPreFormatter.java:50-66 | `\\` first closes any open command, then emits exactly one backslash, and leaves the scanner in a command with an empty name. |
| `Commands.ReadName` | src/main/java/net/sf/jabref/openoffice/OOPreFormatter.java:69-123 | Command characters read inside a command (not at the end of the field, not a lone accent) only accumulate into the name. |
| `Commands.EnterCommand` | src/main/java/net/sf/jabref/openoffice/OOPreFormatter.java:53-66 | A backslash met outside a command emits nothing and opens a command whose name is still empty, with `escaped` set. |
| `Commands.Terminate` | src/main/java/net/sf/jabref/openoffice/OOPreFormatter.java:124-134 | In a just-opened command, a name (possibly empty) followed by a character that is neither a command character nor a backslash hands that name to the terminator dispatch, however the command was opened. |
| `Commands.StyledCommand` | src/main/java/net/sf/jabref/openoffice/OOPreFormatter.java:139-174 | In a just-opened command, a styling name ended by whitespace or a brace emits exactly its open tag, the `getPart` result and its close tag; the cursor skips that part. |
| `Commands.BracedArgument` | src/main/java/net/sf/jabref/openoffice/OOPreFormatter.java:175-188 | In a just-opened command, a non-styling name ended by `{` emits `table[name+arg]` if present, else the bare argument, and never the name. |
| `Commands.ClosedByBrace` | src/main/java/net/sf/jabref/openoffice/OOPreFormatter.java:189-199 | In a just-opened command, a name ended by `}` emits `table[name]` or the literal name; the brace is swallowed and no space is added. |
| `Commands.ClosedBySpace` | src/main/java/net/sf/jabref/openoffice/OOPreFormatter.java:200-207 | In a just-opened command, a name ended by whitespace emits `table[name]` or the literal name, followed by exactly one space. |
| `Commands.StrayTerminator` | src/main/java/net/sf/jabref/openoffice/OOPreFormatter.java:213-226 | In a just-opened command, a name (possibly empty) ended by any other character emits nothing, neither the name nor the character, and both flags are cleared. |
| `Commands.ClosedByBackslash` | src/main/java/net/sf/jabref/openoffice/OOPreFormatter.java:53-66 | In a just-opened command, a name ended by `\` emits `table[name]` or the literal name (styling command or not) and opens a new empty command; right after the opening backslash a second one is the `\\` escape instead. |
| `Commands.RunLastNameChar` | src/main/java/net/sf/jabref/openoffice/OOPreFormatter.java:106-121 | A command character that is the field's last character completes the name, which is resolved and emitted. |
| `Commands.NameToEnd` | src/main/java/net/sf/jabref/openoffice/OOPreFormatter.java:106-121 | In a just-opened command, a name of two or more characters that runs to the end of the field is emitted as `table[name]` or the literal name. |
| `Commands.ClosedByEnd` | src/main/java/net/sf/jabref/openoffice/OOPreFormatter.java:106-121 | In a just-opened command, a name that runs to the end of the field emits `table[name]` or the literal name, and the scan is over. |
| `Commands.AccentWithChar` | src/main/java/net/sf/jabref/openoffice/OOPreFormatter.java:77-105 | In a just-opened command, an accent shorthand followed by a character, as in `\'e`, emits `table["'e"]` on a hit and nothing on a miss; the scan resumes after `e`, outside any command. |
| `Commands.AccentWithBraces` | src/main/java/net/sf/jabref/openoffice/OOPreFormatter.java:77-105 | In a just-opened command, an accent shorthand followed by `{` takes the `getPart` result as its argument, skips it, and emits the table entry for shorthand plus argument, or nothing. |
| `Commands.AccentAtEnd` | src/main/java/net/sf/jabref/openoffice/OOPreFormatter.java:77-83 | In a just-opened command, an accent shorthand that is the field's last character emits nothing, and the look-ahead never reads past the end. |
| `Formatter.FormatLoop` | src/main/java/net/sf/jabref/openoffice/OOPreFormatter.java:35-231 | The source's loop over mutable variables, with in-body cursor jumps, returns exactly `Format`: pre-normalise, `Run` from the initial state, restore. |
| `Formatter.CommandChar` | src/main/java/net/sf/jabref/openoffice/OOPreFormatter.java:69-123 | The imperative body for a letter, `%` or special character agrees with one step of the scan, whatever the `escaped` flag. |
| `Formatter.OtherCharacter` | src/main/java/net/sf/jabref/openoffice/OOPreFormatter.java:124-227 | The imperative body for any other character, including the styling chain, agrees with one step of the scan. |
| `Formatter.BackslashFree` | src/main/java/net/sf/jabref/openoffice/OOPreFormatter.java:35-231 | A field without backslashes holds no command: the output is the field with each `$…$` pair's dollars and every brace dropped, and only then the sentinel read back as `$`. |
| `Formatter.PlainText` | src/main/java/net/sf/jabref/openoffice/OOPreFormatter.java:35-231 | A field without backslashes comes out with each `$…$` pair's dollars and every brace dropped, and all else copied in order, whenever that text does not spell `&dollar;`. |
| `Formatter.PlainTextWithoutDollars` | src/main/java/net/sf/jabref/openoffice/OOPreFormatter.java:35-231 | A field without `\` and `$` comes out as itself with every brace removed, provided that text does not spell `&dollar;`. |
| `Escapes.CollapseWritten` | src/main/java/net/sf/jabref/openoffice/OOPreFormatter.java:37 | On a field made of plain characters, `\&` and `\$`, the first pass unescapes exactly the `\&`. |
| `Escapes.ProtectCollapsed` | src/main/java/net/sf/jabref/openoffice/OOPreFormatter.java:38 | On such a field, the second pass turns exactly the escaped dollars into `&dollar;`. |
| `Escapes.RestoreShielded` | src/main/java/net/sf/jabref/openoffice/OOPreFormatter.java:230 | The final pass brings back exactly the shielded dollars, unless the meant text itself spells `&dollar;`. |
| `Escapes.EscapesRoundTrip` | src/main/java/net/sf/jabref/openoffice/OOPreFormatter.java:35-231 | For any table, a field of plain characters, braces, `\&` and `\$` comes out as the meant text (`&` and `$` in place of the escapes) with its braces dropped, whenever that text does not spell `&dollar;`. |
| `Examples.BareBraces` | src/main/java/net/sf/jabref/openoffice/OOPreFormatter.java:67-68 | `a{b}c` becomes `abc`. |
| `Examples.EscapedAmpersand` | src/main/java/net/sf/jabref/openoffice/OOPreFormatter.java:37 | `100\&50` becomes `100&50`. |
| `Examples.EscapedDollarSign` | src/main/java/net/sf/jabref/openoffice/OOPreFormatter.java:38 | `\$5` becomes `$5`. |
| `Examples.SwallowedDigit` | src/main/java/net/sf/jabref/openoffice/OOPreFormatter.java:48-228 | `\\1` becomes a single backslash when `1` is neither a command character nor whitespace: the digit ends the empty name opened by `\\` and is swallowed. |
| `Examples.SplitSentinel` | src/main/java/net/sf/jabref/openoffice/OOPreFormatter.java:230 | `&dol{}lar;` becomes `$`: the braces are dropped before the sentinel is read back. |

## Left out

- `StringUtil.getPart` is not part of this model. It is a function parameter
  that may return any string. The model relies only on its length, which moves
  the cursor.
- The contents of `HTMLUnicodeConversionMaps.LATEX_UNICODE_CONVERSION_MAP` are
  an arbitrary `map<string, string>` parameter. The table is only ever read,
  and the model makes that true by construction: it is a value.
- `Globals.SPECIAL_COMMAND_CHARS` is an arbitrary `set<char>` parameter.
- `Character.isLetter` and `Character.isWhitespace` are arbitrary predicates
  on characters, not Unicode's classes.
- Characters outside the Basic Multilingual Plane are not modelled. A Dafny
  `char` is a Unicode scalar value, while Java scans a supplementary
  character as two UTF-16 code units (a surrogate pair), each of which may
  end a command or be copied on its own.
- Java's regular-expression engine is not modelled. Each of the two
  `replaceAll` calls is a direct rewrite function with the same leftmost,
  non-overlapping effect.
- The cursor is an unbounded `nat`. Java's `int` would overflow only when
  `getPart` returns a string longer than about 2^31 characters, which the
  model does not consider.
- The `LayoutFormatter` interface, the formatter's callers, and the
  commented-out branch at lines 209-213 are not modelled.
- `currentCommand` starts as `null` in the source. The model starts with an
  empty name. The buffer is only read while `incommand` holds, which is set
  only together with a fresh buffer, so the two agree.
- Escapes.EscapesRoundTrip: covers fields made only of plain characters (no
  `\` or `$`), braces and the escapes `\&` and `\$`. An escape written right
  after an unfinished command name is covered only through the per-command
  lemmas.
- Commands.DoubleBackslash: states the behaviour of `\\` where it is met from
  any state without `escaped`. Its effect on a whole field is stated only for
  the example `\\1` (`Examples.SwallowedDigit`).
- Concrete examples that involve commands (`\textbf{x}`, `{\aa}`) are not
  stated on literal fields. The general lemmas `StyledCommand` and
  `ClosedByBrace` cover them for any table and argument scanner.
