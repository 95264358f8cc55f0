# tbdflow command builder, modelled in Dafny

The VS Code extension for `tbdflow` runs the external `tbdflow` program through a
shell. The class `TbdflowCommandBuilder` turns a form's options into a single
command string. This project models that class. It covers:

- `quote`, which wraps a value in double quotes and puts a backslash in front
  of each `"`, `\`, `$` and backquote;
- `commit`, `branch` and `complete`. Each starts a token array with `tbdflow`
  and the sub-command. It pushes the flags in a fixed order, and pushes an
  optional flag only when its condition holds. Then it joins the array with
  single spaces.

The model is split into five modules:

- `ShellQuote` (`shell_quote.dfy`) defines `Quote`. Beside it is a reader for
  a double-quoted shell word, which follows section 2.2.3 of the POSIX Shell
  Command Language ("Double-Quotes"). With the reader the round trip can be
  stated: the shell reads `quote(s)` back as exactly `s`.
- `JsString` (`js_string.dfy`) models `String.prototype.trim`. It strips the
  WhiteSpace and LineTerminator code points of ECMA-262 (sections 12.2 and
  12.3), listed one by one.
- `CommandLine` (`command_line.dfy`) defines the words of a command line:
  literal words, written as they are, and quoted values. It also models
  `join(' ')`, and a reader that splits such a line back into the argument
  vector the program receives.
- `Arguments` (`arguments.dfy`) describes a sub-command's arguments as a
  table. Each row holds a flag, an optional value, and the condition under
  which the builder pushes it. The module proves general facts about such
  tables:
  - the tokens read back as the arguments;
  - a flag is present exactly when its condition holds;
  - flags keep the table order.
- `CommandBuilder` (`command_builder.dfy`) holds:
  - the options records;
  - the three tables, one per sub-command;
  - the methods `Commit`, `Branch` and `Complete`. They fill `parts` one push
    at a time, as the source does, and are proved equal to the line of their
    table;
  - the properties of each sub-command.

An optional field `x?: T` is an `Option<T>`. The field `type` is named `kind`,
because `type` is a reserved word in Dafny.

The test `opts.x && opts.x.trim().length > 0` is modelled literally as
`NonBlank`: present, not the empty string, and not empty once trimmed. A
lemma shows this means "present and containing a character that is not
whitespace". A boolean option is truthy only when it is `true`.

## Model

| member | source | states |
|---|---|---|
| ShellQuote.Escape | src/tbdflowCommandBuilder.ts:15 | the escaped text is as long as the input plus one backslash per `"`, `\`, `$` or backquote, and no longer |
| ShellQuote.CountSpecial | src/tbdflowCommandBuilder.ts:15 | counts the characters the replace matches (`"`, `\`, `$`, backquote); zero exactly when none occurs |
| ShellQuote.Quote | src/tbdflowCommandBuilder.ts:14-16 | `quote(s)` starts and ends with a double quote, and its length is that of `s` plus 2 plus the number of special characters |
| ShellQuote.EscapeAppend | src/tbdflowCommandBuilder.ts:15 | the global replace works character by character in one pass: the escape of `a + b` is the escape of `a` followed by that of `b`, so an inserted backslash is never escaped again |
| ShellQuote.EscapePlain | src/tbdflowCommandBuilder.ts:15 | a string with no special character passes through unchanged |
| ShellQuote.ReadQuotedEscape | src/tbdflowCommandBuilder.ts:15 | under POSIX double-quote rules, the escaped text followed by a closing quote reads back as the original string and stops right after that quote |
| ShellQuote.UnquoteQuote | src/tbdflowCommandBuilder.ts:14-16 | round trip: the shell reads `quote(s)` as exactly `s`; removing the outer quotes and each escaping backslash gives back `s` |
| ShellQuote.QuoteInjective | src/tbdflowCommandBuilder.ts:14-16 | two different values are never quoted alike |
| JsString.TrimStart | src/tbdflowCommandBuilder.ts:31 | the leading-whitespace cut of `trim`: a suffix of the input, all cut characters are whitespace, and the result does not start with whitespace |
| JsString.TrimEnd | src/tbdflowCommandBuilder.ts:31 | the trailing-whitespace cut of `trim`: a prefix, all cut characters are whitespace, and the result does not end with whitespace |
| JsString.Trim | src/tbdflowCommandBuilder.ts:31 | `s.trim()` is never longer than `s` and neither starts nor ends with whitespace |
| JsString.TrimSlice | src/tbdflowCommandBuilder.ts:31 | `s.trim()` is the slice of `s` between the whitespace on either side: everything it cuts off at either end is whitespace |
| JsString.TrimEmptyIffBlank | src/tbdflowCommandBuilder.ts:31 | `s.trim().length > 0` holds exactly when `s` has a character that is not whitespace |
| CommandLine.JoinSpaced | src/tbdflowCommandBuilder.ts:55 | `parts.join(' ')` is empty for no tokens; otherwise its length is that of all tokens together plus one separator fewer than there are tokens |
| CommandLine.JoinSpacedSnoc | src/tbdflowCommandBuilder.ts:55 | `join(' ')` of one more token appends a single space and that token |
| CommandLine.ReadWordRendered | src/tbdflowCommandBuilder.ts:55 | each token of the line, literal or quoted, is read back as its text, up to the separating space |
| CommandLine.ParseLineRendered | src/tbdflowCommandBuilder.ts:55 | the joined line splits back into one argument per token, and each quoted value arrives intact as a single argument, spaces and special characters included |
| Arguments.ParseArgTokens | src/tbdflowCommandBuilder.ts:24-53 | the pushed flag and value tokens read back as exactly the arguments: every value lands after its own flag, and a switch never takes a value |
| Arguments.FlagTokensOfArgs | src/tbdflowCommandBuilder.ts:28-53 | among the pushed tokens, the flags are exactly the arguments' flags; a quoted value is never taken for a flag |
| Arguments.EmittedInTableOrder | src/tbdflowCommandBuilder.ts:24-53 | the emitted flags are the table's flags, in table order, with the skipped rows left out |
| Arguments.EmittedFlagIff | src/tbdflowCommandBuilder.ts:31-53 | when no other row shares a row's flag, that flag is emitted if and only if the row's condition holds |
| Arguments.TableFlagIff | src/tbdflowCommandBuilder.ts:31-53 | a flag is among the command's tokens if and only if its row is emitted |
| Arguments.SubsequenceOrder | src/tbdflowCommandBuilder.ts:24-55 | two flags of the command occur in the fixed order in the same relative order |
| Arguments.LineRead | src/tbdflowCommandBuilder.ts:55 | the command string reads back as `tbdflow`, the sub-command, then every flag and unquoted value as its own argument |
| Arguments.TokensRead | src/tbdflowCommandBuilder.ts:19-22 | the token array starts with `tbdflow` and the sub-command, and the rest reads back as the arguments |
| CommandBuilder.Truthy | src/tbdflowCommandBuilder.ts:24-26 | the guard `if (opts.noVerify)` (and `if (opts.breaking)` at line 47) holds exactly when the option is present and true; a missing option is falsy |
| CommandBuilder.NonBlank | src/tbdflowCommandBuilder.ts:31-53 | the guard `v && v.trim().length > 0` holds exactly when the field is present and holds a character that is not whitespace; empty and whitespace-only values count as missing |
| CommandBuilder.CommitTable | src/tbdflowCommandBuilder.ts:24-53 | the commit flags are `--no-verify`, `--type`, `--message`, `--scope`, `--body`, `--issue`, `--tag`, `--breaking`, `--breaking-description`, in that order |
| CommandBuilder.CommitTokens | src/tbdflowCommandBuilder.ts:19-53 | exact token array of `commit`: `tbdflow commit`, `--no-verify` if true, `--type q(type)`, `--message q(message)` always, then each optional flag with its quoted value only when not blank, `--breaking` only when true |
| CommandBuilder.Commit | src/tbdflowCommandBuilder.ts:18-56 | the pushes, step by step, build the line of the commit table's emitted rows, and the shell reads that line back as the intended argument vector |
| CommandBuilder.CommitLineRead | src/tbdflowCommandBuilder.ts:55 | the commit line reads back as `tbdflow`, `commit`, and the emitted flags and values, one argument each |
| CommandBuilder.CommitFlagAt | src/tbdflowCommandBuilder.ts:31-53 | each flag of the commit order appears among the tokens if and only if its row of the commit table is emitted |
| CommandBuilder.CommitFlags | src/tbdflowCommandBuilder.ts:24-53 | `--type` and `--message` always appear; `--no-verify` and `--breaking` appear if and only if true; each optional flag appears if and only if its field holds a non-whitespace character |
| CommandBuilder.CommitArgsRead | src/tbdflowCommandBuilder.ts:28-53 | the program receives `tbdflow commit`, then each emitted value exactly as given after its flag, and `--no-verify` and `--breaking` as switches without a value |
| CommandBuilder.CommitEmittedValues | src/tbdflowCommandBuilder.ts:28-53 | the emitted commit arguments carry the option values unchanged |
| CommandBuilder.CommitFlagsInOrder | src/tbdflowCommandBuilder.ts:24-55 | whatever options are given, the flags of a commit line come in the fixed order |
| CommandBuilder.CommitBreakingFirst | src/test/suite/tbdflowCommandBuilder.test.ts:41-52 | wherever both appear, `--breaking` comes before `--breaking-description` |
| CommandBuilder.BlankDescriptionOmitted | src/test/suite/tbdflowCommandBuilder.test.ts:54-59 | a missing, empty or whitespace-only breaking description leaves no `--breaking-description` token; the test's `""` and `"   "` are two such values |
| CommandBuilder.BranchTable | src/tbdflowCommandBuilder.ts:65-74 | the branch flags are `--type`, `--name`, `--issue`, `--from-commit`, in that order |
| CommandBuilder.BranchTokens | src/tbdflowCommandBuilder.ts:59-74 | exact token array of `branch`: `tbdflow branch --type q(type) --name q(name)`, then `--issue` and `--from-commit` with their quoted values, each only when not blank |
| CommandBuilder.Branch | src/tbdflowCommandBuilder.ts:59-77 | the pushes build the line of the branch table's emitted rows, and the shell reads it back as the intended argument vector |
| CommandBuilder.BranchLineRead | src/tbdflowCommandBuilder.ts:76 | the branch line reads back as `tbdflow`, `branch`, and the emitted flags and values |
| CommandBuilder.BranchFlags | src/tbdflowCommandBuilder.ts:65-74 | `--type` and `--name` always appear; `--issue` and `--from-commit` appear if and only if given with a non-whitespace character |
| CommandBuilder.BranchArgsRead | src/tbdflowCommandBuilder.ts:65-74 | the program receives `tbdflow branch` and each emitted value exactly as given, after its flag |
| CommandBuilder.BranchFlagsInOrder | src/tbdflowCommandBuilder.ts:58-77 | the flags of a branch line come in the order `--type`, `--name`, `--issue`, `--from-commit` |
| CommandBuilder.Complete | src/tbdflowCommandBuilder.ts:79-90 | the result is exactly `tbdflow complete --type q(type) --name q(name)`, and the shell reads it as those six arguments with the values unquoted |
| CommandBuilder.CompleteLine | src/tbdflowCommandBuilder.ts:79-90 | the complete line written out as one string, and its reading by the shell |
| CommandBuilder.CompleteTable | src/tbdflowCommandBuilder.ts:86-87 | `complete` has the flags `--type` and `--name`, in that order, both always emitted, carrying the kind and the name |
| CommandBuilder.CompleteTokens | src/tbdflowCommandBuilder.ts:81-87 | the complete token array is the six tokens, with no optional ones |
| CommandBuilder.CompleteArgv | src/tbdflowCommandBuilder.ts:81-87 | the arguments those six tokens stand for carry the kind and the name unchanged |
| CommandBuilder.InlineCommitLine | src/extension.ts:28-29 | the panel's own `tbdflow commit --type q(type) --message q(message)` is the builder's line for a commit with only a type and a message |

## Left out

- `src/extension.ts` is not modelled, apart from its inline commit line.
  It holds:
  - VS Code activation and the webview provider;
  - message handling and HTML generation;
  - the required-field check that trims type and message;
  - `execCmd`, which runs the line with `child_process.exec`.
  All of it is host-API and process I/O.
- `media/panel.js` and `extension.js` are not part of this model. They hold
  DOM handling and a sample webview, with no command logic.
- The test runners (`src/test/runTest.ts`, `src/test/suite/index.ts`,
  `src/test/suite/extension.test.ts`) are runners, not behaviour.
- `changelog`, `sync`, `status` and `current-branch` are not modelled. The
  tool's documented command set includes them, but the builder class has no
  method for them. The model follows the code.
- What `tbdflow` does with its arguments is outside the repository. So is
  how the shell treats anything beyond the words the builder writes.
- The shell is taken to be a POSIX `sh`, which is what `child_process.exec`
  uses on Linux and macOS. On Windows `exec` runs `cmd.exe`, which keeps the
  backslash before `$`, `\` and a backquote and expands `%VAR%`; the round
  trip of `quote` does not hold there.
- Values containing the NUL character (U+0000) never reach a shell.
  `child_process.exec` (`src/extension.ts:133`) rejects a command string that
  holds one, and no argument can carry it. The model's shell reader treats NUL
  as an ordinary character. So the round trips stated by
  `ShellQuote.UnquoteQuote`, `CommandBuilder.CommitArgsRead`,
  `CommandBuilder.BranchArgsRead` and `CommandBuilder.Complete` describe the
  real program only for values without NUL. For a value with NUL, the real
  call fails before any shell runs.
- `CommandLine.ParseLine` reads only the grammar the builder produces:
  - words separated by single spaces;
  - literal words made of letters, digits, `-` and `_`;
  - double-quoted values.
  It is not a general shell parser.
- Strings are sequences of Unicode characters. JavaScript strings are UTF-16
  code units. Every character `trim` and `quote` look at lies in the Basic
  Multilingual Plane, so the two views agree on them. Lone surrogates are not
  modelled.
- `String(s)` in `quote` is taken as the identity, because every value passed
  to it is typed `string`.
- A boolean option is an `Option<bool>`. JavaScript truthiness of non-boolean
  values that a caller might pass against the declared types is not modelled.
- The builder does not validate required fields, and neither does the model.
  `--type`, `--message` and `--name` are emitted even when empty.
- CommitBreakingFirst: states the order of the two flags among the tokens.
  The test checks positions in the joined string instead. A quoted value may
  itself contain the text `--breaking`, so the string form does not hold for
  every input.
- BlankDescriptionOmitted: states that no token is `--breaking-description`.
  The test checks that the joined string does not contain that text, which a
  message containing it would break.
