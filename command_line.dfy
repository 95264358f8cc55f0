/** The command line as a sequence of words joined by single spaces, the way
    the builder's `parts.join(' ')` produces it, and the shell's reading of
    such a line back into the argument vector that the program receives. */
module CommandLine {
  import opened Wrappers
  import opened ShellQuote

  /** One word of a command line: a literal the builder writes as it is
      (`tbdflow`, `commit`, `--type`, ...) or a value it passes through
      `quote`. */
  datatype Word = Bare(text: string) | Quoted(text: string)

  /** The token the builder pushes for a word. */
  function Render(w: Word): (t: string)
    ensures w.Quoted? ==> t == Quote(w.text)
    ensures w.Bare? ==> t == w.text
  {
    match w
    case Bare(t) => t
    case Quoted(v) => Quote(v)
  }

  /** The tokens of a sequence of words, one per word and in order. */
  function RenderAll(ws: seq<Word>): (ts: seq<string>)
    ensures |ts| == |ws|
    ensures forall i :: 0 <= i < |ws| ==> ts[i] == Render(ws[i])
  {
    if ws == [] then [] else [Render(ws[0])] + RenderAll(ws[1..])
  }

  /** The argument vector a sequence of words stands for. */
  function Texts(ws: seq<Word>): (ts: seq<string>)
    ensures |ts| == |ws|
    ensures forall i :: 0 <= i < |ws| ==> ts[i] == ws[i].text
  {
    if ws == [] then [] else [ws[0].text] + Texts(ws[1..])
  }

  /** The number of characters in a sequence of strings, all together. */
  function TotalLength(ts: seq<string>): nat {
    if ts == [] then 0 else |ts[0]| + TotalLength(ts[1..])
  }

  /** `Array.prototype.join(' ')` on an array of strings: the tokens with
      one space between neighbours, so the characters of all the tokens
      plus one separator fewer than there are tokens. */
  function JoinSpaced(ts: seq<string>): (r: string)
    ensures ts == [] ==> r == ""
    ensures ts != [] ==> |r| == TotalLength(ts) + |ts| - 1
  {
    if ts == [] then ""
    else if |ts| == 1 then ts[0]
    else ts[0] + " " + JoinSpaced(ts[1..])
  }

  lemma AppendAssoc<T>(a: seq<T>, b: seq<T>, c: seq<T>)
    ensures a + (b + c) == (a + b) + c
  {
  }

  /** Joining one more string adds a space and that string at the end. */
  lemma {:induction false} JoinSpacedSnoc(ts: seq<string>, t: string)
    requires ts != []
    ensures JoinSpaced(ts + [t]) == JoinSpaced(ts) + " " + t
  {
    assert (ts + [t])[0] == ts[0];
    if |ts| > 1 {
      assert (ts + [t])[1..] == ts[1..] + [t];
      JoinSpacedSnoc(ts[1..], t);
      var j := JoinSpaced(ts[1..]);
      AppendAssoc(ts[0] + " ", j + " ", t);
      AppendAssoc(ts[0] + " ", j, " ");
    } else {
      assert (ts + [t])[1..] == [t];
    }
  }

  /** Characters a literal word is made of: none of them means anything to
      the shell. */
  predicate IsBareChar(c: char) {
    ('a' <= c <= 'z') || ('A' <= c <= 'Z') || ('0' <= c <= '9') || c == '-' || c == '_'
  }

  predicate IsBareWord(t: string) {
    |t| > 0 && forall k :: 0 <= k < |t| ==> IsBareChar(t[k])
  }

  /** Every literal of `ws` is a non-empty bare word. */
  predicate SafeWords(ws: seq<Word>) {
    forall i :: 0 <= i < |ws| ==> (ws[i].Bare? ==> IsBareWord(ws[i].text))
  }

  /** Length of the longest prefix of `t` made of bare characters. */
  function BareLength(t: string): (n: nat)
    ensures n <= |t|
    ensures forall k :: 0 <= k < n ==> IsBareChar(t[k])
    ensures n < |t| ==> !IsBareChar(t[n])
  {
    if t != [] && IsBareChar(t[0]) then 1 + BareLength(t[1..]) else 0
  }

  /** Reads one word at the start of `t`: a double-quoted string or a run of
      bare characters. Gives its text and the rest of `t`. */
  function ReadWord(t: string): (r: Option<(string, string)>)
    ensures r.Some? ==> |r.value.1| < |t|
  {
    if t == [] then None
    else if t[0] == '"' then ReadQuoted(t[1..])
    else
      var n := BareLength(t);
      if n == 0 then None else Some((t[..n], t[n..]))
  }

  /** Reads a non-empty line of words separated by single spaces. */
  function ReadWords(t: string): Option<seq<string>>
    decreases |t|
  {
    match ReadWord(t)
    case None => None
    case Some((w, rest)) =>
      if rest == [] then Some([w])
      else if rest[0] == ' ' then
        match ReadWords(rest[1..])
        case None => None
        case Some(ws) => Some([w] + ws)
      else None
  }

  /** The argument vector the shell makes of a command line; None for a line
      outside the grammar the builder writes in. */
  function ParseLine(line: string): Option<seq<string>> {
    if line == [] then Some([]) else ReadWords(line)
  }

  /** A bare word ends where the line ends or at the separating space. */
  lemma ReadWordBare(b: string, rest: string)
    requires IsBareWord(b)
    requires rest == [] || rest[0] == ' '
    ensures ReadWord(b + rest) == Some((b, rest))
  {
    var t := b + rest;
    assert BareLength(t) == |b|;
    assert t[..|b|] == b && t[|b|..] == rest;
  }

  /** Any word the builder writes is read back as its text, with the rest of
      the line left over. */
  lemma ReadWordRendered(w: Word, rest: string)
    requires w.Bare? ==> IsBareWord(w.text)
    requires rest == [] || rest[0] == ' '
    ensures ReadWord(Render(w) + rest) == Some((w.text, rest))
  {
    match w
    case Bare(b) =>
      ReadWordBare(b, rest);
    case Quoted(v) =>
      var t := Render(w) + rest;
      assert t[0] == '"';
      assert t[1..] == Escape(v) + "\"" + rest;
      ReadQuotedEscape(v, rest);
  }

  lemma {:induction false} ReadWordsRendered(ws: seq<Word>)
    requires |ws| > 0 && SafeWords(ws)
    ensures ReadWords(JoinSpaced(RenderAll(ws))) == Some(Texts(ws))
  {
    var ts := RenderAll(ws);
    if |ws| == 1 {
      assert JoinSpaced(ts) == Render(ws[0]) + [];
      ReadWordRendered(ws[0], []);
      assert Texts(ws) == [ws[0].text];
    } else {
      assert ts[1..] == RenderAll(ws[1..]);
      var tail := JoinSpaced(RenderAll(ws[1..]));
      assert JoinSpaced(ts) == Render(ws[0]) + (" " + tail);
      ReadWordRendered(ws[0], " " + tail);
      assert (" " + tail)[1..] == tail;
      ReadWordsRendered(ws[1..]);
      assert Texts(ws) == [ws[0].text] + Texts(ws[1..]);
    }
  }

  /** Round trip for whole lines: the shell splits the joined tokens back
      into one argument per word, each quoted value arriving intact as a
      single argument, spaces and special characters included. */
  lemma ParseLineRendered(ws: seq<Word>)
    requires SafeWords(ws)
    ensures ParseLine(JoinSpaced(RenderAll(ws))) == Some(Texts(ws))
  {
    if ws != [] {
      var ts := RenderAll(ws);
      if |ws| == 1 {
        assert |Render(ws[0])| > 0;
      } else {
        assert |JoinSpaced(ts)| > 0 by {
          assert JoinSpaced(ts) == ts[0] + " " + JoinSpaced(ts[1..]);
        }
      }
      ReadWordsRendered(ws);
    }
  }
}
