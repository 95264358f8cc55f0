/** The tbdflow command builder: turns the options of one sub-command into
    the command string that runs the `tbdflow` program. `commit`, `branch`
    and `complete` each fill an array of tokens step by step and join it with
    single spaces; every value goes through `quote`, every literal is written
    as it is. */
module CommandBuilder {
  import opened Wrappers
  import opened JsString
  import opened ShellQuote
  import opened CommandLine
  import opened Arguments

  /** The options of `commit`; `kind` is the commit type. */
  datatype CommitOptions = CommitOptions(
    kind: string,
    message: string,
    scope: Option<string>,
    body: Option<string>,
    issue: Option<string>,
    tag: Option<string>,
    breaking: Option<bool>,
    breakingDescription: Option<string>,
    noVerify: Option<bool>)

  /** The options of `branch`; `kind` is the branch type. */
  datatype BranchOptions = BranchOptions(
    kind: string,
    name: string,
    issue: Option<string>,
    fromCommit: Option<string>)

  /** The options of `complete`. */
  datatype CompleteOptions = CompleteOptions(kind: string, name: string)

  /** JavaScript truthiness of an optional boolean: only `true` is truthy. */
  function Truthy(b: Option<bool>): (r: bool)
    ensures r <==> b.Some? && b.value
    ensures b.None? ==> !r
  {
    b == Some(true)
  }

  /** The builder's test `v && v.trim().length > 0` on an optional string:
      present, not the (falsy) empty string, and not empty once trimmed. */
  function NonBlank(v: Option<string>): (r: bool)
    ensures r <==> v.Some? && !AllWhitespace(v.value)
  {
    if v.Some? then
      TrimEmptyIffBlank(v.value);
      v.value != "" && |Trim(v.value)| > 0
    else false
  }

  /** The value of an optional string, or the empty string when it is
      missing (only looked at where `NonBlank` holds). */
  function ValueOr(v: Option<string>): string {
    if v.Some? then v.value else ""
  }

  /** The tokens pushed for a switch. */
  function SwitchTokens(flag: string, b: Option<bool>): seq<string> {
    if Truthy(b) then [flag] else []
  }

  /** The tokens pushed for an optional valued flag. */
  function ValueTokens(flag: string, v: Option<string>): seq<string> {
    if NonBlank(v) then [flag, Quote(v.value)] else []
  }

  /** The tokens of a switch row are those the builder pushes for it. */
  lemma SwitchRow(flag: string, b: Option<bool>)
    ensures RowTokens(Row(Switch(flag), Truthy(b))) == SwitchTokens(flag, b)
  {
    ArgTokensSingle(Switch(flag));
  }

  /** The tokens of an always-emitted row: the flag and the quoted value. */
  lemma RequiredRow(flag: string, v: string)
    ensures RowTokens(Row(Valued(flag, v), true)) == [flag, Quote(v)]
  {
    ArgTokensSingle(Valued(flag, v));
  }

  /** The tokens of an optional valued row are those the builder pushes. */
  lemma OptionalRow(flag: string, v: Option<string>)
    ensures RowTokens(Row(Valued(flag, ValueOr(v)), NonBlank(v))) == ValueTokens(flag, v)
  {
    ArgTokensSingle(Valued(flag, ValueOr(v)));
  }

  /** An optional row that is emitted passes its value on as given. */
  lemma OptionalEmitted(rows: seq<Row>, i: nat, flag: string, v: Option<string>)
    requires i < |rows| && rows[i] == Row(Valued(flag, ValueOr(v)), NonBlank(v))
    ensures NonBlank(v) ==> Valued(flag, v.value) in Emitted(rows)
  {
    if NonBlank(v) {
      EmittedPresent(rows, i);
    }
  }

  // ---------------------------------------------------------------- commit

  /** The order in which `commit` writes its flags. */
  const CommitFlagOrder: seq<string> := [
    "--no-verify", "--type", "--message", "--scope", "--body", "--issue",
    "--tag", "--breaking", "--breaking-description"]

  /** The arguments of `commit` as a table: one row per flag, in the fixed
      order, each with the condition under which it is emitted. `--type` and
      `--message` are always emitted, even when empty. */
  function CommitTable(o: CommitOptions): (rows: seq<Row>)
    ensures RowFlags(rows) == CommitFlagOrder
  {
    [Row(Switch("--no-verify"), Truthy(o.noVerify))]
    + [Row(Valued("--type", o.kind), true)]
    + [Row(Valued("--message", o.message), true)]
    + [Row(Valued("--scope", ValueOr(o.scope)), NonBlank(o.scope))]
    + [Row(Valued("--body", ValueOr(o.body)), NonBlank(o.body))]
    + [Row(Valued("--issue", ValueOr(o.issue)), NonBlank(o.issue))]
    + [Row(Valued("--tag", ValueOr(o.tag)), NonBlank(o.tag))]
    + [Row(Switch("--breaking"), Truthy(o.breaking))]
    + [Row(Valued("--breaking-description", ValueOr(o.breakingDescription)),
           NonBlank(o.breakingDescription))]
  }

  function CommitInvocation(o: CommitOptions): Invocation {
    Invocation("commit", Emitted(CommitTable(o)))
  }

  /** The tokens of a commit command: `tbdflow commit`, then the tokens of
      each flag in the fixed order, a switch only when `true`, an optional
      value only when it is not blank. */
  lemma CommitTokens(o: CommitOptions)
    ensures Tokens(CommitInvocation(o)) ==
      ["tbdflow", "commit"]
      + SwitchTokens("--no-verify", o.noVerify) 
      + ["--type", Quote(o.kind)] 
      + ["--message", Quote(o.message)] 
      + ValueTokens("--scope", o.scope) 
      + ValueTokens("--body", o.body) 
      + ValueTokens("--issue", o.issue) 
      + ValueTokens("--tag", o.tag) 
      + SwitchTokens("--breaking", o.breaking) 
      + ValueTokens("--breaking-description", o.breakingDescription)
  {
    var t0 := ["tbdflow", "commit"];
    var p1 := [Row(Switch("--no-verify"), Truthy(o.noVerify))];
    var t1 := t0 + SwitchTokens("--no-verify", o.noVerify);
    var p2 := p1 + [Row(Valued("--type", o.kind), true)];
    var t2 := t1 + ["--type", Quote(o.kind)];
    var p3 := p2 + [Row(Valued("--message", o.message), true)];
    var t3 := t2 + ["--message", Quote(o.message)];
    var p4 := p3 + [Row(Valued("--scope", ValueOr(o.scope)), NonBlank(o.scope))];
    var t4 := t3 + ValueTokens("--scope", o.scope);
    var p5 := p4 + [Row(Valued("--body", ValueOr(o.body)), NonBlank(o.body))];
    var t5 := t4 + ValueTokens("--body", o.body);
    var p6 := p5 + [Row(Valued("--issue", ValueOr(o.issue)), NonBlank(o.issue))];
    var t6 := t5 + ValueTokens("--issue", o.issue);
    var p7 := p6 + [Row(Valued("--tag", ValueOr(o.tag)), NonBlank(o.tag))];
    var t7 := t6 + ValueTokens("--tag", o.tag);
    var p8 := p7 + [Row(Switch("--breaking"), Truthy(o.breaking))];
    var t8 := t7 + SwitchTokens("--breaking", o.breaking);
    var p9 := p8 + [Row(Valued("--breaking-description", ValueOr(o.breakingDescription)), NonBlank(o.breakingDescription))];
    var t9 := t8 + ValueTokens("--breaking-description", o.breakingDescription);
    assert t0 + ArgTokens(Emitted([])) == t0;
    assert t0 + ArgTokens(Emitted(p1)) == t1 by {
      assert [] + p1 == p1;
      SwitchRow("--no-verify", o.noVerify);
      EmittedTokensStep(t0, [], Row(Switch("--no-verify"), Truthy(o.noVerify)), t0);
    }
    assert t0 + ArgTokens(Emitted(p2)) == t2 by {
      RequiredRow("--type", o.kind);
      EmittedTokensStep(t0, p1, Row(Valued("--type", o.kind), true), t1);
    }
    assert t0 + ArgTokens(Emitted(p3)) == t3 by {
      RequiredRow("--message", o.message);
      EmittedTokensStep(t0, p2, Row(Valued("--message", o.message), true), t2);
    }
    assert t0 + ArgTokens(Emitted(p4)) == t4 by {
      OptionalRow("--scope", o.scope);
      EmittedTokensStep(t0, p3, Row(Valued("--scope", ValueOr(o.scope)), NonBlank(o.scope)), t3);
    }
    assert t0 + ArgTokens(Emitted(p5)) == t5 by {
      OptionalRow("--body", o.body);
      EmittedTokensStep(t0, p4, Row(Valued("--body", ValueOr(o.body)), NonBlank(o.body)), t4);
    }
    assert t0 + ArgTokens(Emitted(p6)) == t6 by {
      OptionalRow("--issue", o.issue);
      EmittedTokensStep(t0, p5, Row(Valued("--issue", ValueOr(o.issue)), NonBlank(o.issue)), t5);
    }
    assert t0 + ArgTokens(Emitted(p7)) == t7 by {
      OptionalRow("--tag", o.tag);
      EmittedTokensStep(t0, p6, Row(Valued("--tag", ValueOr(o.tag)), NonBlank(o.tag)), t6);
    }
    assert t0 + ArgTokens(Emitted(p8)) == t8 by {
      SwitchRow("--breaking", o.breaking);
      EmittedTokensStep(t0, p7, Row(Switch("--breaking"), Truthy(o.breaking)), t7);
    }
    assert t0 + ArgTokens(Emitted(p9)) == t9 by {
      OptionalRow("--breaking-description", o.breakingDescription);
      EmittedTokensStep(t0, p8, Row(Valued("--breaking-description", ValueOr(o.breakingDescription)), NonBlank(o.breakingDescription)), t8);
    }
    assert CommitTable(o) == p9;
    TokensSplit(CommitInvocation(o));
  }

  /** `commit`: builds the token array one `push` at a time and joins it.
      The result is the line of the commit table's emitted rows, and the
      shell reads it back as the program name, `commit`, and each flag and
      value as one argument. */
  method Commit(o: CommitOptions) returns (cmd: string)
    ensures cmd == Line(CommitInvocation(o))
    ensures ParseLine(cmd) == Some(Argv(CommitInvocation(o)))
  {
    var parts := ["tbdflow", "commit"];
    ghost var head := parts;
    // `rows` is the part of the commit table the pushes so far account for;
    // `parts` always holds `head` followed by the tokens of its emitted rows.
    ghost var rows: seq<Row> := [];
    ghost var row: Row;
    assert head + ArgTokens(Emitted(rows)) == parts;
    row := Row(Switch("--no-verify"), Truthy(o.noVerify));
    if Truthy(o.noVerify) {
      EmittedTokensPush(head, rows, row, parts, ["--no-verify"]);
      parts := parts + ["--no-verify"];
    } else {
      EmittedTokensSkip(head, rows, row, parts);
    }
    assert [] + [row] == [row];
    rows := [row];
    row := Row(Valued("--type", o.kind), true);
    EmittedTokensPush(head, rows, row, parts, ["--type", Quote(o.kind)]);
    parts := parts + ["--type", Quote(o.kind)];
    rows := rows + [row];
    row := Row(Valued("--message", o.message), true);
    EmittedTokensPush(head, rows, row, parts, ["--message", Quote(o.message)]);
    parts := parts + ["--message", Quote(o.message)];
    rows := rows + [row];
    row := Row(Valued("--scope", ValueOr(o.scope)), NonBlank(o.scope));
    if NonBlank(o.scope) {
      EmittedTokensPush(head, rows, row, parts, ["--scope", Quote(o.scope.value)]);
      parts := parts + ["--scope", Quote(o.scope.value)];
    } else {
      EmittedTokensSkip(head, rows, row, parts);
    }
    rows := rows + [row];
    row := Row(Valued("--body", ValueOr(o.body)), NonBlank(o.body));
    if NonBlank(o.body) {
      EmittedTokensPush(head, rows, row, parts, ["--body", Quote(o.body.value)]);
      parts := parts + ["--body", Quote(o.body.value)];
    } else {
      EmittedTokensSkip(head, rows, row, parts);
    }
    rows := rows + [row];
    row := Row(Valued("--issue", ValueOr(o.issue)), NonBlank(o.issue));
    if NonBlank(o.issue) {
      EmittedTokensPush(head, rows, row, parts, ["--issue", Quote(o.issue.value)]);
      parts := parts + ["--issue", Quote(o.issue.value)];
    } else {
      EmittedTokensSkip(head, rows, row, parts);
    }
    rows := rows + [row];
    row := Row(Valued("--tag", ValueOr(o.tag)), NonBlank(o.tag));
    if NonBlank(o.tag) {
      EmittedTokensPush(head, rows, row, parts, ["--tag", Quote(o.tag.value)]);
      parts := parts + ["--tag", Quote(o.tag.value)];
    } else {
      EmittedTokensSkip(head, rows, row, parts);
    }
    rows := rows + [row];
    row := Row(Switch("--breaking"), Truthy(o.breaking));
    if Truthy(o.breaking) {
      EmittedTokensPush(head, rows, row, parts, ["--breaking"]);
      parts := parts + ["--breaking"];
    } else {
      EmittedTokensSkip(head, rows, row, parts);
    }
    rows := rows + [row];
    row := Row(Valued("--breaking-description", ValueOr(o.breakingDescription)), NonBlank(o.breakingDescription));
    if NonBlank(o.breakingDescription) {
      EmittedTokensPush(head, rows, row, parts, ["--breaking-description", Quote(o.breakingDescription.value)]);
      parts := parts + ["--breaking-description", Quote(o.breakingDescription.value)];
    } else {
      EmittedTokensSkip(head, rows, row, parts);
    }
    rows := rows + [row];
    assert rows == CommitTable(o);
    TokensSplit(CommitInvocation(o));
    cmd := JoinSpaced(parts);
    CommitLineRead(o);
  }

  lemma CommitWellFormed(o: CommitOptions)
    ensures ValidInvocation(CommitInvocation(o))
  {
    CommitFlagWords();
    EmittedWellFormed(CommitTable(o));
  }

  lemma CommitFlagWords()
    ensures forall i :: 0 <= i < |CommitFlagOrder| ==> FlagWord(CommitFlagOrder[i])
  {
    assert FlagWord("--no-verify") && FlagWord("--type") && FlagWord("--message");
    assert FlagWord("--scope") && FlagWord("--body") && FlagWord("--issue");
    assert FlagWord("--tag") && FlagWord("--breaking") && FlagWord("--breaking-description");
  }

  /** The shell reads the commit line back as `tbdflow`, `commit`, then every
      emitted flag and the unquoted value after each valued one. */
  lemma CommitLineRead(o: CommitOptions)
    ensures ParseLine(Line(CommitInvocation(o))) == Some(Argv(CommitInvocation(o)))
  {
    CommitWellFormed(o);
    LineRead(CommitInvocation(o));
  }

  /** The commit table row by row. */
  lemma CommitTableRows(o: CommitOptions)
    ensures CommitTable(o) == [
      Row(Switch("--no-verify"), Truthy(o.noVerify)),
      Row(Valued("--type", o.kind), true),
      Row(Valued("--message", o.message), true),
      Row(Valued("--scope", ValueOr(o.scope)), NonBlank(o.scope)),
      Row(Valued("--body", ValueOr(o.body)), NonBlank(o.body)),
      Row(Valued("--issue", ValueOr(o.issue)), NonBlank(o.issue)),
      Row(Valued("--tag", ValueOr(o.tag)), NonBlank(o.tag)),
      Row(Switch("--breaking"), Truthy(o.breaking)),
      Row(Valued("--breaking-description", ValueOr(o.breakingDescription)), NonBlank(o.breakingDescription))]
  {
  }

  lemma CommitFlagsDistinct()
    ensures Distinct(CommitFlagOrder)
  {
  }

  /** The i-th commit flag is among the tokens exactly when its row is
      emitted. */
  lemma CommitFlagAt(o: CommitOptions, i: nat)
    requires i < |CommitFlagOrder|
    ensures CommitFlagOrder[i] in Tokens(CommitInvocation(o)) <==> CommitTable(o)[i].emitted
  {
    CommitWellFormed(o);
    CommitFlagsDistinct();
    CommitFlagWords();
    TableFlagIff(CommitInvocation(o), CommitTable(o), i);
  }

  /** Which flags a commit command carries: `--type` and `--message`
      always; `--no-verify` and `--breaking` exactly when they are `true`;
      `--scope`, `--body`, `--issue`, `--tag` and `--breaking-description`
      exactly when given with a character that is not whitespace. */
  lemma CommitFlags(o: CommitOptions)
    ensures var fs := Tokens(CommitInvocation(o));
      && ("--no-verify" in fs <==> o.noVerify == Some(true))
      && "--type" in fs && "--message" in fs
      && ("--scope" in fs <==> o.scope.Some? && !AllWhitespace(o.scope.value))
      && ("--body" in fs <==> o.body.Some? && !AllWhitespace(o.body.value))
      && ("--issue" in fs <==> o.issue.Some? && !AllWhitespace(o.issue.value))
      && ("--tag" in fs <==> o.tag.Some? && !AllWhitespace(o.tag.value))
      && ("--breaking" in fs <==> o.breaking == Some(true))
      && ("--breaking-description" in fs <==>
            o.breakingDescription.Some? && !AllWhitespace(o.breakingDescription.value))
  {
    CommitTableRows(o);
    CommitFlagAt(o, 0);
    CommitFlagAt(o, 1);
    CommitFlagAt(o, 2);
    CommitFlagAt(o, 3);
    CommitFlagAt(o, 4);
    CommitFlagAt(o, 5);
    CommitFlagAt(o, 6);
    CommitFlagAt(o, 7);
    CommitFlagAt(o, 8);
  }

  /** What the program receives after `tbdflow commit`: the values of the
      emitted flags, unquoted and exactly as given. */
  lemma CommitArgsRead(o: CommitOptions)
    ensures var ts := Tokens(CommitInvocation(o));
      && |ts| >= 2 && ts[..2] == ["tbdflow", "commit"]
      && var args := ParseArgs(ts[2..]);
      && args.Some?
      && Valued("--type", o.kind) in args.value
      && Valued("--message", o.message) in args.value
      && (NonBlank(o.scope) ==> Valued("--scope", o.scope.value) in args.value)
      && (NonBlank(o.body) ==> Valued("--body", o.body.value) in args.value)
      && (NonBlank(o.issue) ==> Valued("--issue", o.issue.value) in args.value)
      && (NonBlank(o.tag) ==> Valued("--tag", o.tag.value) in args.value)
      && (NonBlank(o.breakingDescription) ==>
            Valued("--breaking-description", o.breakingDescription.value) in args.value)
      && (Truthy(o.noVerify) ==> Switch("--no-verify") in args.value)
      && (Truthy(o.breaking) ==> Switch("--breaking") in args.value)
  {
    CommitWellFormed(o);
    TokensRead(CommitInvocation(o));
    CommitEmittedValues(o);
  }

  /** The arguments the commit table emits carry the option values as
      given. */
  lemma CommitEmittedValues(o: CommitOptions)
    ensures var args := Emitted(CommitTable(o));
      && Valued("--type", o.kind) in args
      && Valued("--message", o.message) in args
      && (NonBlank(o.scope) ==> Valued("--scope", o.scope.value) in args)
      && (NonBlank(o.body) ==> Valued("--body", o.body.value) in args)
      && (NonBlank(o.issue) ==> Valued("--issue", o.issue.value) in args)
      && (NonBlank(o.tag) ==> Valued("--tag", o.tag.value) in args)
      && (NonBlank(o.breakingDescription) ==>
            Valued("--breaking-description", o.breakingDescription.value) in args)
      && (Truthy(o.noVerify) ==> Switch("--no-verify") in args)
      && (Truthy(o.breaking) ==> Switch("--breaking") in args)
  {
    var rows := CommitTable(o);
    CommitTableRows(o);
    EmittedPresent(rows, 1);
    EmittedPresent(rows, 2);
    OptionalEmitted(rows, 3, "--scope", o.scope);
    OptionalEmitted(rows, 4, "--body", o.body);
    OptionalEmitted(rows, 5, "--issue", o.issue);
    OptionalEmitted(rows, 6, "--tag", o.tag);
    OptionalEmitted(rows, 8, "--breaking-description", o.breakingDescription);
    if Truthy(o.noVerify) { EmittedPresent(rows, 0); }
    if Truthy(o.breaking) { EmittedPresent(rows, 7); }
  }

  /** The flags of a commit command come in the fixed order. */
  lemma CommitFlagsInOrder(o: CommitOptions)
    ensures IsSubsequence(FlagTokens(Tokens(CommitInvocation(o))), CommitFlagOrder)
  {
    CommitWellFormed(o);
    FlagsInTableOrder(CommitInvocation(o), CommitTable(o));
  }

  /** Wherever `--breaking` and `--breaking-description` both appear,
      `--breaking` comes first. */
  lemma CommitBreakingFirst(o: CommitOptions, p: nat, q: nat)
    requires var fs := FlagTokens(Tokens(CommitInvocation(o)));
      p < |fs| && q < |fs| && fs[p] == "--breaking-description" && fs[q] == "--breaking"
    ensures q < p
  {
    var fs := FlagTokens(Tokens(CommitInvocation(o)));
    if p < q {
      CommitFlagsInOrder(o);
      SubsequenceOrder(fs, CommitFlagOrder, p, q);
      var i, j :| 0 <= i < j < |CommitFlagOrder| && CommitFlagOrder[i] == fs[p] && CommitFlagOrder[j] == fs[q];
      BreakingPositions(i, j);
    }
  }

  /** Where the two breaking-change flags sit in the commit flag order. */
  lemma BreakingPositions(i: nat, j: nat)
    requires i < |CommitFlagOrder| && j < |CommitFlagOrder|
    requires CommitFlagOrder[i] == "--breaking-description" && CommitFlagOrder[j] == "--breaking"
    ensures i == 8 && j == 7
  {
  }

  // ---------------------------------------------------------------- branch

  /** The order in which `branch` writes its flags. */
  const BranchFlagOrder: seq<string> := ["--type", "--name", "--issue", "--from-commit"]

  /** The arguments of `branch` as a table: `--type` and `--name` always,
      `--issue` and `--from-commit` when given with a character that is not
      whitespace. */
  function BranchTable(o: BranchOptions): (rows: seq<Row>)
    ensures RowFlags(rows) == BranchFlagOrder
  {
    [Row(Valued("--type", o.kind), true)]
    + [Row(Valued("--name", o.name), true)]
    + [Row(Valued("--issue", ValueOr(o.issue)), NonBlank(o.issue))]
    + [Row(Valued("--from-commit", ValueOr(o.fromCommit)), NonBlank(o.fromCommit))]
  }

  function BranchInvocation(o: BranchOptions): Invocation {
    Invocation("branch", Emitted(BranchTable(o)))
  }

  /** The tokens of a branch command: `tbdflow branch --type <kind> --name
      <name>`, then `--issue` and `--from-commit` when not blank. */
  lemma BranchTokens(o: BranchOptions)
    ensures Tokens(BranchInvocation(o)) ==
      ["tbdflow", "branch"]
      + ["--type", Quote(o.kind)] 
      + ["--name", Quote(o.name)] 
      + ValueTokens("--issue", o.issue) 
      + ValueTokens("--from-commit", o.fromCommit)
  {
    var t0 := ["tbdflow", "branch"];
    var p1 := [Row(Valued("--type", o.kind), true)];
    var t1 := t0 + ["--type", Quote(o.kind)];
    var p2 := p1 + [Row(Valued("--name", o.name), true)];
    var t2 := t1 + ["--name", Quote(o.name)];
    var p3 := p2 + [Row(Valued("--issue", ValueOr(o.issue)), NonBlank(o.issue))];
    var t3 := t2 + ValueTokens("--issue", o.issue);
    var p4 := p3 + [Row(Valued("--from-commit", ValueOr(o.fromCommit)), NonBlank(o.fromCommit))];
    var t4 := t3 + ValueTokens("--from-commit", o.fromCommit);
    assert t0 + ArgTokens(Emitted([])) == t0;
    assert t0 + ArgTokens(Emitted(p1)) == t1 by {
      assert [] + p1 == p1;
      RequiredRow("--type", o.kind);
      EmittedTokensStep(t0, [], Row(Valued("--type", o.kind), true), t0);
    }
    assert t0 + ArgTokens(Emitted(p2)) == t2 by {
      RequiredRow("--name", o.name);
      EmittedTokensStep(t0, p1, Row(Valued("--name", o.name), true), t1);
    }
    assert t0 + ArgTokens(Emitted(p3)) == t3 by {
      OptionalRow("--issue", o.issue);
      EmittedTokensStep(t0, p2, Row(Valued("--issue", ValueOr(o.issue)), NonBlank(o.issue)), t2);
    }
    assert t0 + ArgTokens(Emitted(p4)) == t4 by {
      OptionalRow("--from-commit", o.fromCommit);
      EmittedTokensStep(t0, p3, Row(Valued("--from-commit", ValueOr(o.fromCommit)), NonBlank(o.fromCommit)), t3);
    }
    assert BranchTable(o) == p4;
    TokensSplit(BranchInvocation(o));
  }

  /** `branch`: builds the token array one `push` at a time and joins it.
      The result is the line of the branch table's emitted rows, and the
      shell reads it back as the program name, `branch`, and each flag and
      value as one argument. */
  method Branch(o: BranchOptions) returns (cmd: string)
    ensures cmd == Line(BranchInvocation(o))
    ensures ParseLine(cmd) == Some(Argv(BranchInvocation(o)))
  {
    var parts := ["tbdflow", "branch"];
    ghost var head := parts;
    // `rows` is the part of the branch table the pushes so far account for;
    // `parts` always holds `head` followed by the tokens of its emitted rows.
    ghost var rows: seq<Row> := [];
    ghost var row: Row;
    assert head + ArgTokens(Emitted(rows)) == parts;
    row := Row(Valued("--type", o.kind), true);
    EmittedTokensPush(head, rows, row, parts, ["--type", Quote(o.kind)]);
    parts := parts + ["--type", Quote(o.kind)];
    assert [] + [row] == [row];
    rows := [row];
    row := Row(Valued("--name", o.name), true);
    EmittedTokensPush(head, rows, row, parts, ["--name", Quote(o.name)]);
    parts := parts + ["--name", Quote(o.name)];
    rows := rows + [row];
    row := Row(Valued("--issue", ValueOr(o.issue)), NonBlank(o.issue));
    if NonBlank(o.issue) {
      EmittedTokensPush(head, rows, row, parts, ["--issue", Quote(o.issue.value)]);
      parts := parts + ["--issue", Quote(o.issue.value)];
    } else {
      EmittedTokensSkip(head, rows, row, parts);
    }
    rows := rows + [row];
    row := Row(Valued("--from-commit", ValueOr(o.fromCommit)), NonBlank(o.fromCommit));
    if NonBlank(o.fromCommit) {
      EmittedTokensPush(head, rows, row, parts, ["--from-commit", Quote(o.fromCommit.value)]);
      parts := parts + ["--from-commit", Quote(o.fromCommit.value)];
    } else {
      EmittedTokensSkip(head, rows, row, parts);
    }
    rows := rows + [row];
    assert rows == BranchTable(o);
    TokensSplit(BranchInvocation(o));
    cmd := JoinSpaced(parts);
    BranchLineRead(o);
  }

  lemma BranchFlagWords()
    ensures forall i :: 0 <= i < |BranchFlagOrder| ==> FlagWord(BranchFlagOrder[i])
  {
    assert FlagWord("--type") && FlagWord("--name");
    assert FlagWord("--issue") && FlagWord("--from-commit");
  }

  lemma BranchWellFormed(o: BranchOptions)
    ensures ValidInvocation(BranchInvocation(o))
  {
    BranchFlagWords();
    EmittedWellFormed(BranchTable(o));
  }

  /** The shell reads the branch line back as `tbdflow`, `branch`, then
      every emitted flag and the unquoted value after each. */
  lemma BranchLineRead(o: BranchOptions)
    ensures ParseLine(Line(BranchInvocation(o))) == Some(Argv(BranchInvocation(o)))
  {
    BranchWellFormed(o);
    LineRead(BranchInvocation(o));
  }

  /** The branch table row by row. */
  lemma BranchTableRows(o: BranchOptions)
    ensures BranchTable(o) == [
      Row(Valued("--type", o.kind), true),
      Row(Valued("--name", o.name), true),
      Row(Valued("--issue", ValueOr(o.issue)), NonBlank(o.issue)),
      Row(Valued("--from-commit", ValueOr(o.fromCommit)), NonBlank(o.fromCommit))]
  {
  }

  /** Which flags a branch command carries: `--type` and `--name` always;
      `--issue` and `--from-commit` exactly when given with a character that
      is not whitespace. */
  lemma BranchFlags(o: BranchOptions)
    ensures var fs := Tokens(BranchInvocation(o));
      && "--type" in fs && "--name" in fs
      && ("--issue" in fs <==> o.issue.Some? && !AllWhitespace(o.issue.value))
      && ("--from-commit" in fs <==> o.fromCommit.Some? && !AllWhitespace(o.fromCommit.value))
  {
    var c := BranchInvocation(o);
    var rows := BranchTable(o);
    BranchWellFormed(o);
    assert Distinct(BranchFlagOrder);
    BranchTableRows(o);
    TableFlagIff(c, rows, 0);
    TableFlagIff(c, rows, 1);
    TableFlagIff(c, rows, 2);
    TableFlagIff(c, rows, 3);
  }

  /** What the program receives after `tbdflow branch`: the values of the
      emitted flags, unquoted and exactly as given. */
  lemma BranchArgsRead(o: BranchOptions)
    ensures var ts := Tokens(BranchInvocation(o));
      && |ts| >= 2 && ts[..2] == ["tbdflow", "branch"]
      && var args := ParseArgs(ts[2..]);
      && args.Some?
      && Valued("--type", o.kind) in args.value
      && Valued("--name", o.name) in args.value
      && (NonBlank(o.issue) ==> Valued("--issue", o.issue.value) in args.value)
      && (NonBlank(o.fromCommit) ==> Valued("--from-commit", o.fromCommit.value) in args.value)
  {
    var rows := BranchTable(o);
    BranchWellFormed(o);
    TokensRead(BranchInvocation(o));
    BranchTableRows(o);
    EmittedPresent(rows, 0);
    EmittedPresent(rows, 1);
    OptionalEmitted(rows, 2, "--issue", o.issue);
    OptionalEmitted(rows, 3, "--from-commit", o.fromCommit);
  }

  /** The flags of a branch command come in the fixed order. */
  lemma BranchFlagsInOrder(o: BranchOptions)
    ensures IsSubsequence(FlagTokens(Tokens(BranchInvocation(o))), BranchFlagOrder)
  {
    BranchWellFormed(o);
    FlagsInTableOrder(BranchInvocation(o), BranchTable(o));
  }

  // -------------------------------------------------------------- complete

  /** The arguments of `complete`: `--type` and `--name`, always. */
  function CompleteTable(o: CompleteOptions): (rows: seq<Row>)
    ensures RowFlags(rows) == ["--type", "--name"]
    ensures forall i :: 0 <= i < |rows| ==> rows[i].emitted
    ensures Emitted(rows) == [Valued("--type", o.kind), Valued("--name", o.name)]
  {
    [Row(Valued("--type", o.kind), true)]
    + [Row(Valued("--name", o.name), true)]
  }

  function CompleteInvocation(o: CompleteOptions): Invocation {
    Invocation("complete", Emitted(CompleteTable(o)))
  }

  /** `complete`: the line `tbdflow complete --type <kind> --name <name>`
      with both values quoted, which the shell reads back as those six
      words with the values unquoted. */
  method Complete(o: CompleteOptions) returns (cmd: string)
    ensures cmd == Line(CompleteInvocation(o))
    ensures cmd == "tbdflow complete --type " + Quote(o.kind) + " --name " + Quote(o.name)
    ensures ParseLine(cmd) == Some(["tbdflow", "complete", "--type", o.kind, "--name", o.name])
  {
    var parts := ["tbdflow", "complete"];
    ghost var head := parts;
    // `rows` is the part of the complete table the pushes so far account for;
    // `parts` always holds `head` followed by the tokens of its emitted rows.
    ghost var rows: seq<Row> := [];
    assert head + ArgTokens(Emitted(rows)) == parts;
    ArgTokensSingle(Valued("--type", o.kind));
    EmittedTokensPush(head, rows, Row(Valued("--type", o.kind), true), parts, ["--type", Quote(o.kind)]);
    parts := parts + ["--type", Quote(o.kind)];
    assert [] + [Row(Valued("--type", o.kind), true)] == [Row(Valued("--type", o.kind), true)];
    rows := [Row(Valued("--type", o.kind), true)];
    ArgTokensSingle(Valued("--name", o.name));
    EmittedTokensPush(head, rows, Row(Valued("--name", o.name), true), parts, ["--name", Quote(o.name)]);
    parts := parts + ["--name", Quote(o.name)];
    rows := rows + [Row(Valued("--name", o.name), true)];
    assert rows == CompleteTable(o);
    TokensSplit(CompleteInvocation(o));
    cmd := JoinSpaced(parts);
    CompleteLine(o);
  }

  /** The complete line written out, and what the shell reads from it. */
  lemma CompleteLine(o: CompleteOptions)
    ensures Line(CompleteInvocation(o)) == "tbdflow complete --type " + Quote(o.kind) + " --name " + Quote(o.name)
    ensures ParseLine(Line(CompleteInvocation(o))) == Some(["tbdflow", "complete", "--type", o.kind, "--name", o.name])
  {
    var c := CompleteInvocation(o);
    assert ParseLine(Line(c)) == Some(Argv(c)) by {
      CompleteWellFormed(o);
      LineRead(c);
    }
    CompleteTokens(o);
    CompleteArgv(o);
    JoinSix(Tokens(c));
    CompleteLiterals();
    SixTokenString("tbdflow", "complete", "--type", Quote(o.kind), "--name", Quote(o.name),
                   "tbdflow complete --type ", " --name ");
  }

  lemma CompleteWellFormed(o: CompleteOptions)
    ensures ValidInvocation(CompleteInvocation(o))
  {
    assert FlagWord("--type") && FlagWord("--name");
    EmittedWellFormed(CompleteTable(o));
  }

  lemma CompleteLiterals()
    ensures "tbdflow" + " " + "complete" + " " + "--type" + " " == "tbdflow complete --type "
    ensures " " + "--name" + " " == " --name "
  {
  }

  /** Six tokens joined with spaces, with the literal parts around the two
      values written as single strings. */
  lemma SixTokenString(w0: string, w1: string, f1: string, v1: string, f2: string, v2: string,
                       prefix: string, middle: string)
    requires prefix == w0 + " " + w1 + " " + f1 + " "
    requires middle == " " + f2 + " "
    ensures w0 + " " + w1 + " " + f1 + " " + v1 + " " + f2 + " " + v2 == prefix + v1 + middle + v2
  {
    var p := prefix + v1;
    AppendAssoc(p, " ", f2);
    AppendAssoc(p, " " + f2, " ");
  }


  /** The tokens of a complete invocation: six, with no optional ones. */
  lemma CompleteTokens(o: CompleteOptions)
    ensures Tokens(CompleteInvocation(o)) == ["tbdflow", "complete", "--type", Quote(o.kind), "--name", Quote(o.name)]
  {
    CompleteWords(o);
    var ts := Tokens(CompleteInvocation(o));
    assert ts[0] == "tbdflow" && ts[1] == "complete" && ts[2] == "--type";
    assert ts[3] == Quote(o.kind) && ts[4] == "--name" && ts[5] == Quote(o.name);
  }

  /** The argument vector of a complete invocation: the six words, values
      unquoted. */
  lemma CompleteArgv(o: CompleteOptions)
    ensures Argv(CompleteInvocation(o)) == ["tbdflow", "complete", "--type", o.kind, "--name", o.name]
  {
    CompleteWords(o);
    var vs := Argv(CompleteInvocation(o));
    assert vs[0] == "tbdflow" && vs[1] == "complete" && vs[2] == "--type";
    assert vs[3] == o.kind && vs[4] == "--name" && vs[5] == o.name;
  }

  /** The words of a complete invocation. */
  lemma CompleteWords(o: CompleteOptions)
    ensures CompleteInvocation(o).args == [Valued("--type", o.kind), Valued("--name", o.name)]
    ensures InvocationWords(CompleteInvocation(o)) ==
      [Bare("tbdflow"), Bare("complete"), Bare("--type"), Quoted(o.kind), Bare("--name"), Quoted(o.name)]
  {
    var rows := CompleteTable(o);
    assert rows == [Row(Valued("--type", o.kind), true), Row(Valued("--name", o.name), true)];
    assert rows[1..][1..] == [];
    var args := [Valued("--type", o.kind), Valued("--name", o.name)];
    assert Emitted(rows) == args;
    assert args[1..][1..] == [];
    assert ArgsWords(args[1..]) == [Bare("--name"), Quoted(o.name)] + [];
    assert ArgsWords(args) == [Bare("--type"), Quoted(o.kind)] + [Bare("--name"), Quoted(o.name)];
  }

  /** `join(' ')` of six tokens. */
  lemma JoinSix(ts: seq<string>)
    requires |ts| == 6
    ensures JoinSpaced(ts) == ts[0] + " " + ts[1] + " " + ts[2] + " " + ts[3] + " " + ts[4] + " " + ts[5]
  {
    assert JoinSpaced(ts[..1]) == ts[0];
    assert ts[..2] == ts[..1] + [ts[1]];
    JoinSpacedSnoc(ts[..1], ts[1]);
    assert ts[..3] == ts[..2] + [ts[2]];
    JoinSpacedSnoc(ts[..2], ts[2]);
    assert ts[..4] == ts[..3] + [ts[3]];
    JoinSpacedSnoc(ts[..3], ts[3]);
    assert ts[..5] == ts[..4] + [ts[4]];
    JoinSpacedSnoc(ts[..4], ts[4]);
    assert ts == ts[..5] + [ts[5]];
    JoinSpacedSnoc(ts[..5], ts[5]);
  }

  /** A breaking-change description that is missing, empty or only
      whitespace leaves no `--breaking-description` token. */
  lemma BlankDescriptionOmitted(o: CommitOptions)
    requires o.breakingDescription.None? || AllWhitespace(o.breakingDescription.value)
    ensures "--breaking-description" !in Tokens(CommitInvocation(o))
  {
    CommitFlags(o);
  }

  // ------------------------------------------------------ inline commit line

  /** The panel's own commit line, `tbdflow commit --type <q(type)> --message
      <q(message)>`, is the line the builder produces for a commit with only
      a type and a message. */
  lemma InlineCommitLine(kind: string, message: string)
    ensures Line(CommitInvocation(CommitOptions(kind, message, None, None, None, None, None, None, None)))
         == "tbdflow commit --type " + Quote(kind) + " --message " + Quote(message)
  {
    var c := CommitInvocation(CommitOptions(kind, message, None, None, None, None, None, None, None));
    assert Tokens(c) == ["tbdflow", "commit", "--type", Quote(kind), "--message", Quote(message)] by {
      PlainCommitTokens(kind, message);
    }
    JoinSix(Tokens(c));
    InlineCommitLiterals();
    SixTokenString("tbdflow", "commit", "--type", Quote(kind), "--message", Quote(message),
                   "tbdflow commit --type ", " --message ");
  }

  /** With only a type and a message, a commit has no optional tokens. */
  lemma PlainCommitTokens(kind: string, message: string)
    ensures Tokens(CommitInvocation(CommitOptions(kind, message, None, None, None, None, None, None, None)))
         == ["tbdflow", "commit", "--type", Quote(kind), "--message", Quote(message)]
  {
    CommitTokens(CommitOptions(kind, message, None, None, None, None, None, None, None));
  }

  lemma InlineCommitLiterals()
    ensures "tbdflow" + " " + "commit" + " " + "--type" + " " == "tbdflow commit --type "
    ensures " " + "--message" + " " == " --message "
  {
  }
}
