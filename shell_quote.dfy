/** The builder's `quote`: wrap a string in double quotes, putting one
    backslash in front of each character that keeps a special meaning inside
    double quotes in a POSIX shell. Beside it, a reader for a double-quoted
    word that follows the shell's double-quote rules (section 2.2.3 of the
    POSIX Shell Command Language), so that the round trip can be stated. */
module ShellQuote {
  import opened Wrappers

  /** `"`, backslash, `$` and backquote: the characters of the regular
      expression class the builder escapes. */
  predicate IsSpecial(c: char) {
    c == '"' || c == '\\' || c == '$' || c == '`'
  }

  /** Number of special characters in `s`. */
  function CountSpecial(s: string): (n: nat)
    ensures n <= |s|
    ensures n == 0 <==> forall k :: 0 <= k < |s| ==> !IsSpecial(s[k])
  {
    if s == [] then 0
    else (if IsSpecial(s[0]) then 1 else 0) + CountSpecial(s[1..])
  }

  /** The replacement the builder makes for one character. */
  function EscapeChar(c: char): string {
    if IsSpecial(c) then ['\\', c] else [c]
  }

  /** The global replace of the builder's quote, one character at a time,
      left to right: one backslash per special character and no more. */
  function Escape(s: string): (r: string)
    ensures |r| == |s| + CountSpecial(s)
  {
    if s == [] then [] else EscapeChar(s[0]) + Escape(s[1..])
  }

  /** `quote(s)`. Its length is that of `s`, plus the two quotes, plus one
      backslash per special character. */
  function Quote(s: string): (r: string)
    ensures |r| == |s| + 2 + CountSpecial(s)
    ensures r[0] == '"' && r[|r| - 1] == '"'
  {
    "\"" + Escape(s) + "\""
  }

  /** Escaping works character by character: the escape of a concatenation is
      the concatenation of the escapes, so no backslash that was inserted is
      looked at again. */
  lemma {:induction false} EscapeAppend(a: string, b: string)
    ensures Escape(a + b) == Escape(a) + Escape(b)
  {
    if a == [] {
      assert a + b == b;
    } else {
      assert (a + b)[1..] == a[1..] + b;
      EscapeAppend(a[1..], b);
    }
  }

  /** A string without special characters is left as it is. */
  lemma {:induction false} EscapePlain(s: string)
    requires CountSpecial(s) == 0
    ensures Escape(s) == s
  {
    if s != [] {
      EscapePlain(s[1..]);
    }
  }

  /** Reads the inside of a double-quoted word, after its opening quote, up
      to its closing quote, as a POSIX shell does: a backslash before `"`,
      backslash, `$` or backquote stands for that character, a backslash
      before a newline joins the lines, any other backslash is itself. Gives
      the text and what follows the closing quote; None when the closing
      quote is missing or when an unescaped `$` or backquote would make the
      shell expand something. */
  function ReadQuoted(t: string): (r: Option<(string, string)>)
    ensures r.Some? ==> |r.value.1| < |t|
    decreases |t|
  {
    if t == [] then None
    else if t[0] == '"' then Some(([], t[1..]))
    else if t[0] == '$' || t[0] == '`' then None
    else if t[0] == '\\' && |t| >= 2 && t[1] == '\n' then ReadQuoted(t[2..])
    else if t[0] == '\\' && |t| >= 2 && IsSpecial(t[1]) then
      match ReadQuoted(t[2..])
      case None => None
      case Some((v, rest)) => Some(([t[1]] + v, rest))
    else
      match ReadQuoted(t[1..])
      case None => None
      case Some((v, rest)) => Some(([t[0]] + v, rest))
  }

  /** The shell's reading of a word that is one double-quoted string and
      nothing else. */
  function Unquote(t: string): Option<string> {
    if t != [] && t[0] == '"' then
      match ReadQuoted(t[1..])
      case Some((v, rest)) => if rest == [] then Some(v) else None
      case None => None
    else None
  }

  /** One escaped special character is read as that character. */
  lemma ReadQuotedEscaped(c: char, tail: string)
    requires IsSpecial(c)
    ensures ReadQuoted(['\\', c] + tail) ==
      match ReadQuoted(tail)
      case None => None
      case Some((v, rest)) => Some(([c] + v, rest))
  {
    assert (['\\', c] + tail)[2..] == tail;
  }

  /** Any other character is read as itself. */
  lemma ReadQuotedPlain(c: char, tail: string)
    requires !IsSpecial(c)
    ensures ReadQuoted([c] + tail) ==
      match ReadQuoted(tail)
      case None => None
      case Some((v, rest)) => Some(([c] + v, rest))
  {
    assert ([c] + tail)[1..] == tail;
  }

  /** The escaped text of `s`, followed by a closing quote, reads back as `s`
      and stops right after that quote, whatever comes next. */
  lemma {:induction false} ReadQuotedEscape(s: string, rest: string)
    ensures ReadQuoted(Escape(s) + "\"" + rest) == Some((s, rest))
  {
    if s == [] {
      assert Escape(s) + "\"" + rest == "\"" + rest;
    } else {
      var tail := Escape(s[1..]) + "\"" + rest;
      ReadQuotedEscape(s[1..], rest);
      assert Escape(s) + "\"" + rest == EscapeChar(s[0]) + tail;
      if IsSpecial(s[0]) {
        ReadQuotedEscaped(s[0], tail);
      } else {
        ReadQuotedPlain(s[0], tail);
      }
      assert [s[0]] + s[1..] == s;
    }
  }

  /** Round trip: the shell reads `quote(s)` back as exactly `s`; dropping
      the outer quotes and each escaping backslash gives `s`, so no character
      was escaped twice and none was left bare. */
  lemma UnquoteQuote(s: string)
    ensures Unquote(Quote(s)) == Some(s)
  {
    ReadQuotedEscape(s, []);
    assert Quote(s)[1..] == Escape(s) + "\"" + [];
  }

  /** Two different strings are never quoted alike. */
  lemma QuoteInjective(a: string, b: string)
    requires Quote(a) == Quote(b)
    ensures a == b
  {
    UnquoteQuote(a);
    UnquoteQuote(b);
  }
}
