/** The arguments that follow `tbdflow <sub-command>`: bare switches and
    flags followed by one quoted value. A sub-command's arguments are given
    by a table of rows in the fixed flag order, each row with the condition
    under which the builder emits it. */
module Arguments {
  import opened Wrappers
  import opened ShellQuote
  import opened CommandLine

  datatype Arg = Switch(flag: string) | Valued(flag: string, value: string)

  /** The words one argument takes: the flag, then its value if it has one. */
  function ArgWords(a: Arg): seq<Word> {
    match a
    case Switch(f) => [Bare(f)]
    case Valued(f, v) => [Bare(f), Quoted(v)]
  }

  /** The words of a sequence of arguments, in order. */
  function ArgsWords(args: seq<Arg>): seq<Word> {
    if args == [] then [] else ArgWords(args[0]) + ArgsWords(args[1..])
  }

  /** The tokens a sequence of arguments is pushed as. */
  function ArgTokens(args: seq<Arg>): seq<string> {
    RenderAll(ArgsWords(args))
  }

  /** The flags of a sequence of arguments, in order. */
  function FlagsOf(args: seq<Arg>): (fs: seq<string>)
    ensures |fs| == |args|
    ensures forall i :: 0 <= i < |args| ==> fs[i] == args[i].flag
  {
    if args == [] then [] else [args[0].flag] + FlagsOf(args[1..])
  }

  /** A flag token starts with a dash; a quoted value never does. */
  predicate IsFlag(t: string) {
    |t| > 0 && t[0] == '-'
  }

  /** A flag the shell passes through unchanged: a bare word starting with a
      dash. */
  predicate FlagWord(t: string) {
    IsFlag(t) && IsBareWord(t)
  }

  /** Every flag is a bare word that starts with a dash. */
  predicate WellFormed(args: seq<Arg>) {
    forall i :: 0 <= i < |args| ==> FlagWord(args[i].flag)
  }

  /** One row of a sub-command's table: an argument, and whether the options
      given make the builder emit it. */
  datatype Row = Row(arg: Arg, emitted: bool)

  /** The arguments of the rows that are emitted, in table order. */
  function Emitted(rows: seq<Row>): (args: seq<Arg>)
    ensures |args| <= |rows|
  {
    if rows == [] then []
    else (if rows[0].emitted then [rows[0].arg] else []) + Emitted(rows[1..])
  }

  /** Reads a token sequence back into arguments: a flag followed by a token
      that is not a flag takes that token, unquoted, as its value; a flag
      followed by another flag, or by nothing, is a switch. */
  function ParseArgs(ts: seq<string>): Option<seq<Arg>>
    decreases |ts|
  {
    if ts == [] then Some([])
    else if !IsFlag(ts[0]) then None
    else if |ts| >= 2 && !IsFlag(ts[1]) then
      match Unquote(ts[1])
      case None => None
      case Some(v) =>
        match ParseArgs(ts[2..])
        case None => None
        case Some(rest) => Some([Valued(ts[0], v)] + rest)
    else
      match ParseArgs(ts[1..])
      case None => None
      case Some(rest) => Some([Switch(ts[0])] + rest)
  }

  lemma RenderAllAppend(a: seq<Word>, b: seq<Word>)
    ensures RenderAll(a + b) == RenderAll(a) + RenderAll(b)
  {
  }

  lemma {:induction false} ArgsWordsAppend(a: seq<Arg>, b: seq<Arg>)
    ensures ArgsWords(a + b) == ArgsWords(a) + ArgsWords(b)
  {
    if a == [] {
      assert a + b == b;
    } else {
      assert (a + b)[0] == a[0];
      assert (a + b)[1..] == a[1..] + b;
      ArgsWordsAppend(a[1..], b);
      AppendAssoc(ArgWords(a[0]), ArgsWords(a[1..]), ArgsWords(b));
    }
  }

  lemma {:induction false} EmittedAppend(a: seq<Row>, b: seq<Row>)
    ensures Emitted(a + b) == Emitted(a) + Emitted(b)
  {
    if a == [] {
      assert a + b == b;
    } else {
      var h := if a[0].emitted then [a[0].arg] else [];
      assert (a + b)[0] == a[0];
      assert (a + b)[1..] == a[1..] + b;
      EmittedAppend(a[1..], b);
      AppendAssoc(h, Emitted(a[1..]), Emitted(b));
    }
  }

  /** The tokens of the arguments are the tokens of the first one followed by
      those of the rest. */
  lemma ArgTokensCons(args: seq<Arg>)
    requires args != []
    ensures ArgTokens(args) == RenderAll(ArgWords(args[0])) + ArgTokens(args[1..])
  {
    RenderAllAppend(ArgWords(args[0]), ArgsWords(args[1..]));
  }

  /** The words of well-formed arguments have bare literals only. */
  lemma {:induction false} ArgsWordsSafe(args: seq<Arg>)
    requires WellFormed(args)
    ensures SafeWords(ArgsWords(args))
  {
    if args != [] {
      ArgsWordsSafe(args[1..]);
    }
  }

  /** The first token of a non-empty argument sequence is its first flag. */
  lemma FirstToken(args: seq<Arg>)
    requires args != []
    ensures ArgTokens(args) != [] && ArgTokens(args)[0] == args[0].flag
  {
    ArgTokensCons(args);
  }

  /** A flag followed by a flag or by nothing is read as a switch. */
  lemma ParseSwitch(f: string, rest: seq<string>)
    requires IsFlag(f)
    requires rest == [] || IsFlag(rest[0])
    ensures ParseArgs([f] + rest) ==
      match ParseArgs(rest)
      case None => None
      case Some(r) => Some([Switch(f)] + r)
  {
    assert ([f] + rest)[1..] == rest;
  }

  /** A flag followed by a quoted value is read as that flag with the value. */
  lemma ParseValued(f: string, v: string, rest: seq<string>)
    requires IsFlag(f)
    ensures ParseArgs([f, Quote(v)] + rest) ==
      match ParseArgs(rest)
      case None => None
      case Some(r) => Some([Valued(f, v)] + r)
  {
    assert ([f, Quote(v)] + rest)[2..] == rest;
    UnquoteQuote(v);
  }

  /** Round trip: the tokens of well-formed arguments read back as exactly
      those arguments, so every value lands right after its own flag and a
      switch never takes a value. */
  lemma {:induction false} ParseArgTokens(args: seq<Arg>)
    requires WellFormed(args)
    ensures ParseArgs(ArgTokens(args)) == Some(args)
  {
    if args != [] {
      ParseArgTokens(args[1..]);
      ParseArgCons(args[0], args[1..]);
      assert [args[0]] + args[1..] == args;
    }
  }

  /** One more argument in front: if the tokens of `tail` read back as
      `tail`, those of `a` followed by them read back as `a` and `tail`. */
  lemma ParseArgCons(a: Arg, tail: seq<Arg>)
    requires FlagWord(a.flag) && WellFormed(tail)
    requires ParseArgs(ArgTokens(tail)) == Some(tail)
    ensures ParseArgs(ArgTokens([a] + tail)) == Some([a] + tail)
  {
    var rest := ArgTokens(tail);
    ArgTokensCons([a] + tail);
    assert ([a] + tail)[0] == a && ([a] + tail)[1..] == tail;
    if tail != [] {
      FirstToken(tail);
    }
    match a
    case Switch(f) =>
      ParseSwitch(f, rest);
    case Valued(f, v) =>
      ParseValued(f, v, rest);
  }


  /** The flags of a table, row by row, emitted or not. */
  function RowFlags(rows: seq<Row>): (fs: seq<string>)
    ensures |fs| == |rows|
    ensures forall i {:trigger fs[i]} :: 0 <= i < |rows| ==> fs[i] == rows[i].arg.flag
  {
    if rows == [] then [] else [rows[0].arg.flag] + RowFlags(rows[1..])
  }

  /** The tokens that are flags, in order. */
  function FlagTokens(ts: seq<string>): seq<string> {
    if ts == [] then []
    else (if IsFlag(ts[0]) then [ts[0]] else []) + FlagTokens(ts[1..])
  }

  /** A flag is among the tokens exactly when it is among their flags. */
  lemma {:induction false} FlagTokensIn(ts: seq<string>, f: string)
    requires IsFlag(f)
    ensures f in ts <==> f in FlagTokens(ts)
  {
    if ts != [] {
      FlagTokensIn(ts[1..], f);
      assert ts == [ts[0]] + ts[1..];
    }
  }

  /** `xs` is `ys` with some elements left out and the rest kept in order. */
  predicate IsSubsequence(xs: seq<string>, ys: seq<string>)
    decreases |ys|
  {
    xs == [] ||
    (ys != [] &&
     ((xs[0] == ys[0] && IsSubsequence(xs[1..], ys[1..])) || IsSubsequence(xs, ys[1..])))
  }

  lemma {:induction false} FlagTokensAppend(a: seq<string>, b: seq<string>)
    ensures FlagTokens(a + b) == FlagTokens(a) + FlagTokens(b)
  {
    if a == [] {
      assert a + b == b;
    } else {
      assert (a + b)[1..] == a[1..] + b;
      FlagTokensAppend(a[1..], b);
    }
  }

  /** Among the tokens of well-formed arguments, the flags are exactly the
      arguments' flags: a quoted value is never taken for one. */
  lemma {:induction false} FlagTokensOfArgs(args: seq<Arg>)
    requires WellFormed(args)
    ensures FlagTokens(ArgTokens(args)) == FlagsOf(args)
  {
    if args != [] {
      ArgTokensCons(args);
      FlagTokensOfArgs(args[1..]);
      var head := RenderAll(ArgWords(args[0]));
      FlagTokensAppend(head, ArgTokens(args[1..]));
      match args[0]
      case Switch(f) =>
        assert head == [f];
      case Valued(f, v) =>
        assert head == [f, Quote(v)];
        assert head[1..] == [Quote(v)];
        assert [Quote(v)][1..] == [];
    }
  }

  /** The emitted flags keep the order of the table. */
  lemma {:induction false} EmittedInTableOrder(rows: seq<Row>)
    ensures IsSubsequence(FlagsOf(Emitted(rows)), RowFlags(rows))
  {
    if rows != [] {
      EmittedInTableOrder(rows[1..]);
      var rest := Emitted(rows[1..]);
      if rows[0].emitted {
        assert Emitted(rows) == [rows[0].arg] + rest;
        assert FlagsOf(Emitted(rows))[1..] == FlagsOf(rest);
      } else {
        assert Emitted(rows) == rest;
      }
    }
  }

  /** The tokens one row contributes: its argument's if it is emitted,
      none otherwise. */
  function RowTokens(r: Row): seq<string> {
    if r.emitted then ArgTokens([r.arg]) else []
  }

  /** The tokens of one argument. */
  lemma ArgTokensSingle(a: Arg)
    ensures ArgTokens([a]) == (match a case Switch(f) => [f] case Valued(f, v) => [f, Quote(v)])
  {
    assert [a][1..] == [];
    assert ArgsWords([a]) == ArgWords(a) + [];
  }

  /** Appending a row to a table appends that row's tokens. */
  lemma EmittedTokensSnoc(rows: seq<Row>, r: Row)
    ensures ArgTokens(Emitted(rows + [r])) == ArgTokens(Emitted(rows)) + RowTokens(r)
  {
    EmittedAppend(rows, [r]);
    assert [r][1..] == [];
    var last := if r.emitted then [r.arg] else [];
    assert Emitted([r]) == last;
    ArgsWordsAppend(Emitted(rows), last);
    RenderAllAppend(ArgsWords(Emitted(rows)), ArgsWords(last));
  }

  /** One more row: the tokens of a table with one more row are those of
      the table followed by the row's own, if any. */
  lemma EmittedTokensStep(head: seq<string>, rows: seq<Row>, r: Row, before: seq<string>)
    requires head + ArgTokens(Emitted(rows)) == before
    ensures head + ArgTokens(Emitted(rows + [r])) == before + RowTokens(r)
  {
    EmittedTokensSnoc(rows, r);
    AppendAssoc(head, ArgTokens(Emitted(rows)), RowTokens(r));
  }

  /** One more row that is emitted: if a token array held the tokens of the
      rows so far, with the program name and sub-command in front, then
      pushing the tokens of the row makes it hold those of one row more. */
  lemma EmittedTokensPush(head: seq<string>, rows: seq<Row>, r: Row, before: seq<string>, toks: seq<string>)
    requires r.emitted
    requires toks == (match r.arg case Switch(f) => [f] case Valued(f, v) => [f, Quote(v)])
    requires head + ArgTokens(Emitted(rows)) == before
    ensures head + ArgTokens(Emitted(rows + [r])) == before + toks
  {
    ArgTokensSingle(r.arg);
    EmittedTokensSnoc(rows, r);
    AppendAssoc(head, ArgTokens(Emitted(rows)), toks);
  }

  /** One more row that is not emitted: the token array is left as it is. */
  lemma EmittedTokensSkip(head: seq<string>, rows: seq<Row>, r: Row, t: seq<string>)
    requires !r.emitted
    requires head + ArgTokens(Emitted(rows)) == t
    ensures head + ArgTokens(Emitted(rows + [r])) == t
  {
    EmittedTokensSnoc(rows, r);
    assert RowTokens(r) == [];
    var a := ArgTokens(Emitted(rows));
    assert a + [] == a;
  }

  /** A table whose flags are all bare words starting with a dash emits
      well-formed arguments. */
  lemma {:induction false} EmittedWellFormed(rows: seq<Row>)
    requires forall i :: 0 <= i < |RowFlags(rows)| ==> FlagWord(RowFlags(rows)[i])
    ensures WellFormed(Emitted(rows))
  {
    if rows != [] {
      assert RowFlags(rows[1..]) == RowFlags(rows)[1..];
      EmittedWellFormed(rows[1..]);
      assert RowFlags(rows)[0] == rows[0].arg.flag;
    }
  }

  /** One run of the program: `tbdflow <sub-command>` and its arguments. */
  datatype Invocation = Invocation(subcommand: string, args: seq<Arg>)

  function InvocationWords(c: Invocation): seq<Word> {
    [Bare("tbdflow"), Bare(c.subcommand)] + ArgsWords(c.args)
  }

  /** The `parts` array the builder fills for an invocation. */
  function Tokens(c: Invocation): seq<string> {
    RenderAll(InvocationWords(c))
  }

  /** The command string the builder returns. */
  function Line(c: Invocation): string {
    JoinSpaced(Tokens(c))
  }

  /** The argument vector the program receives, values unquoted. */
  function Argv(c: Invocation): seq<string> {
    Texts(InvocationWords(c))
  }

  predicate ValidInvocation(c: Invocation) {
    IsBareWord(c.subcommand) && WellFormed(c.args)
  }

  /** The tokens are the program name, the sub-command, then the arguments'
      tokens. */
  lemma TokensSplit(c: Invocation)
    ensures Tokens(c) == ["tbdflow", c.subcommand] + ArgTokens(c.args)
  {
    RenderAllAppend([Bare("tbdflow"), Bare(c.subcommand)], ArgsWords(c.args));
  }

  /** The shell reads the command string back into the program name, the
      sub-command and every flag and value as its own argument. */
  lemma LineRead(c: Invocation)
    requires ValidInvocation(c)
    ensures ParseLine(Line(c)) == Some(Argv(c))
  {
    ArgsWordsSafe(c.args);
    assert IsBareWord("tbdflow");
    var ws := InvocationWords(c);
    assert SafeWords(ws) by {
      forall i | 0 <= i < |ws| && ws[i].Bare?
        ensures IsBareWord(ws[i].text)
      {
        if i >= 2 {
          assert ws[i] == ArgsWords(c.args)[i - 2];
        }
      }
    }
    ParseLineRendered(ws);
  }

  /** After the program name and the sub-command, the tokens read back as
      exactly the invocation's arguments. */
  lemma TokensRead(c: Invocation)
    requires WellFormed(c.args)
    ensures |Tokens(c)| >= 2 && Tokens(c)[..2] == ["tbdflow", c.subcommand]
    ensures ParseArgs(Tokens(c)[2..]) == Some(c.args)
  {
    TokensSplit(c);
    assert Tokens(c)[2..] == ArgTokens(c.args);
    ParseArgTokens(c.args);
  }

  /** Among the tokens of an invocation whose sub-command is not a flag,
      the flags are exactly those of its arguments. */
  lemma InvocationFlags(c: Invocation)
    requires WellFormed(c.args) && !IsFlag(c.subcommand)
    ensures FlagTokens(Tokens(c)) == FlagsOf(c.args)
  {
    TokensSplit(c);
    FlagTokensAppend(["tbdflow", c.subcommand], ArgTokens(c.args));
    assert FlagTokens(["tbdflow", c.subcommand]) == [] by {
      assert ["tbdflow", c.subcommand][1..] == [c.subcommand];
      assert [c.subcommand][1..] == [];
    }
    FlagTokensOfArgs(c.args);
  }

  /** The flags of the command appear in table order: they are the table's
      flags with the rows that are not emitted left out. */
  lemma FlagsInTableOrder(c: Invocation, rows: seq<Row>)
    requires c.args == Emitted(rows) && WellFormed(c.args)
    requires !IsFlag(c.subcommand)
    ensures IsSubsequence(FlagTokens(Tokens(c)), RowFlags(rows))
  {
    InvocationFlags(c);
    EmittedInTableOrder(rows);
  }

  /** No element occurs twice. */
  predicate Distinct(fs: seq<string>) {
    forall i, j :: 0 <= i < j < |fs| ==> fs[i] != fs[j]
  }

  /** An emitted row's argument, and so its flag, is among those emitted. */
  lemma {:induction false} EmittedPresent(rows: seq<Row>, i: nat)
    requires i < |rows| && rows[i].emitted
    ensures rows[i].arg in Emitted(rows)
    ensures rows[i].arg.flag in FlagsOf(Emitted(rows))
  {
    var rest := Emitted(rows[1..]);
    if rows[0].emitted {
      assert Emitted(rows) == [rows[0].arg] + rest;
      assert FlagsOf(Emitted(rows)) == [rows[0].arg.flag] + FlagsOf(rest);
    } else {
      assert Emitted(rows) == rest;
    }
    if i > 0 {
      EmittedPresent(rows[1..], i - 1);
      assert rows[1..][i - 1] == rows[i];
    }
  }

  /** A flag that no emitted row carries is not among the emitted flags. */
  lemma {:induction false} EmittedFlagAbsent(rows: seq<Row>, f: string)
    requires forall k :: 0 <= k < |rows| && rows[k].emitted ==> rows[k].arg.flag != f
    ensures f !in FlagsOf(Emitted(rows))
  {
    if rows != [] {
      var rest := Emitted(rows[1..]);
      if rows[0].emitted {
        assert Emitted(rows) == [rows[0].arg] + rest;
        assert FlagsOf(Emitted(rows)) == [rows[0].arg.flag] + FlagsOf(rest);
      } else {
        assert Emitted(rows) == rest;
      }
      assert forall k :: 0 <= k < |rows[1..]| && rows[1..][k].emitted ==> rows[1..][k].arg.flag != f by {
        forall k | 0 <= k < |rows[1..]| && rows[1..][k].emitted
          ensures rows[1..][k].arg.flag != f
        {
          assert rows[1..][k] == rows[k + 1];
        }
      }
      EmittedFlagAbsent(rows[1..], f);
    }
  }

  /** In a table whose flags are distinct, no other row shares row i's flag. */
  lemma DistinctRowFlag(rows: seq<Row>, i: nat)
    requires i < |rows| && Distinct(RowFlags(rows))
    ensures forall k :: 0 <= k < |rows| && k != i ==> rows[k].arg.flag != rows[i].arg.flag
  {
    var fs := RowFlags(rows);
    forall k | 0 <= k < |rows| && k != i
      ensures rows[k].arg.flag != rows[i].arg.flag
    {
      if k < i {
        assert fs[k] != fs[i];
      } else {
        assert fs[i] != fs[k];
      }
    }
  }

  /** When no other row shares row i's flag, that flag is emitted exactly
      when the row's condition holds. */
  lemma EmittedFlagIff(rows: seq<Row>, i: nat)
    requires i < |rows|
    requires forall k :: 0 <= k < |rows| && k != i ==> rows[k].arg.flag != rows[i].arg.flag
    ensures rows[i].arg.flag in FlagsOf(Emitted(rows)) <==> rows[i].emitted
  {
    if rows[i].emitted {
      EmittedPresent(rows, i);
    } else {
      EmittedFlagAbsent(rows, rows[i].arg.flag);
    }
  }

  /** A flag of a table with distinct flags is among the command's tokens
      exactly when its row is emitted. */
  lemma TableFlagIff(c: Invocation, rows: seq<Row>, i: nat)
    requires c.args == Emitted(rows) && WellFormed(c.args)
    requires i < |rows| && Distinct(RowFlags(rows))
    requires !IsFlag(c.subcommand) && IsFlag(rows[i].arg.flag)
    ensures rows[i].arg.flag in Tokens(c) <==> rows[i].emitted
  {
    InvocationFlags(c);
    DistinctRowFlag(rows, i);
    EmittedFlagIff(rows, i);
    FlagTokensIn(Tokens(c), rows[i].arg.flag);
  }

  /** Every element of a subsequence is an element of the whole. */
  lemma {:induction false} SubsequenceIn(xs: seq<string>, ys: seq<string>, p: nat)
    requires IsSubsequence(xs, ys) && p < |xs|
    ensures xs[p] in ys
    decreases |ys|
  {
    if xs[0] == ys[0] && IsSubsequence(xs[1..], ys[1..]) {
      if p > 0 {
        SubsequenceIn(xs[1..], ys[1..], p - 1);
      }
    } else {
      SubsequenceIn(xs, ys[1..], p);
    }
  }

  /** A subsequence keeps the order of the whole: two elements of it occur
      in the whole in the same order. */
  lemma {:induction false} SubsequenceOrder(xs: seq<string>, ys: seq<string>, p: nat, q: nat)
    requires IsSubsequence(xs, ys) && p < q < |xs|
    ensures exists i, j :: 0 <= i < j < |ys| && ys[i] == xs[p] && ys[j] == xs[q]
    decreases |ys|
  {
    if xs[0] == ys[0] && IsSubsequence(xs[1..], ys[1..]) {
      if p == 0 {
        SubsequenceIn(xs[1..], ys[1..], q - 1);
        var j :| 0 <= j < |ys[1..]| && ys[1..][j] == xs[q];
        assert ys[0] == xs[p] && ys[j + 1] == xs[q];
      } else {
        SubsequenceOrder(xs[1..], ys[1..], p - 1, q - 1);
        var i, j :| 0 <= i < j < |ys[1..]| && ys[1..][i] == xs[p] && ys[1..][j] == xs[q];
        assert ys[i + 1] == xs[p] && ys[j + 1] == xs[q];
      }
    } else {
      SubsequenceOrder(xs, ys[1..], p, q);
      var i, j :| 0 <= i < j < |ys[1..]| && ys[1..][i] == xs[p] && ys[1..][j] == xs[q];
      assert ys[i + 1] == xs[p] && ys[j + 1] == xs[q];
    }
  }
}
