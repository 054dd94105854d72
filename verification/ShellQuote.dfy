/** The command line that `script_exit_code` builds (guest/linuxlab-agent/src/validators/script.rs)
    against a lexer for the quoting rules of the POSIX Shell Command Language. */
module ShellQuoting {
  import opened Prelude

  // ---------------------------------------------------------------- the printer

  /** `str::replace('\'', r"'\''")`. */
  function EscapeQuotes(s: string): string {
    if s == "" then ""
    else (if s[0] == '\'' then "'\\''" else [s[0]]) + EscapeQuotes(s[1..])
  }

  function ShellQuote(value: string): string {
    "'" + EscapeQuotes(value) + "'"
  }

  function JoinQuoted(arguments: seq<string>): string {
    if arguments == [] then ""
    else if |arguments| == 1 then ShellQuote(arguments[0])
    else ShellQuote(arguments[0]) + " " + JoinQuoted(arguments[1..])
  }

  function Command(path: string, arguments: seq<string>): string {
    ShellQuote(path) + " " + JoinQuoted(arguments)
  }

  // ---------------------------------------------------------------- the lexer

  /** Where the lexer is: between words, inside a word, or inside single quotes. */
  datatype Mode = Between | InWord(word: string) | InQuotes(word: string)

  /** The characters that section 2.2 of the Shell Command Language asks to be quoted, other
      than blanks, the backslash and the single quote, which the lexer handles itself. */
  predicate Special(c: char) {
    c in "|&;<>()$`\"*?[#~=%\n"
  }

  predicate Blank(c: char) {
    c == ' ' || c == '\t'
  }

  function Finish(mode: Mode): Option<seq<string>> {
    match mode
    case Between => Some([])
    case InWord(w) => Some([w])
    case InQuotes(_) => None
  }

  function Prefix(w: string, rest: Option<seq<string>>): Option<seq<string>> {
    match rest
    case Some(words) => Some([w] + words)
    case None => None
  }

  function WordSoFar(mode: Mode): string {
    match mode
    case Between => ""
    case InWord(w) => w
    case InQuotes(w) => w
  }

  /** The words of a simple command.  Inside single quotes every character stands for itself
      (section 2.2.2); a backslash outside quotes preserves the next character, and together
      with a newline it disappears (section 2.2.1).  `None` where the shell would do anything
      else: an operator, an expansion, a comment, or a quote that is never closed. */
  function Lex(s: string, mode: Mode): Option<seq<string>>
    decreases |s|
  {
    if s == "" then Finish(mode)
    else
      var c, rest := s[0], s[1..];
      if mode.InQuotes? then
        if c == '\'' then Lex(rest, InWord(mode.word)) else Lex(rest, InQuotes(mode.word + [c]))
      else if Blank(c) then
        if mode.InWord? then Prefix(mode.word, Lex(rest, Between)) else Lex(rest, Between)
      else if c == '\'' then Lex(rest, InQuotes(WordSoFar(mode)))
      else if c == '\\' then
        if rest == "" then None
        else if rest[0] == '\n' then Lex(rest[1..], mode)
        else Lex(rest[1..], InWord(WordSoFar(mode) + [rest[0]]))
      else if Special(c) then None
      else Lex(rest, InWord(WordSoFar(mode) + [c]))
  }

  function Words(s: string): Option<seq<string>> {
    Lex(s, Between)
  }

  // ---------------------------------------------------------------- round trip

  /** `'\''` closes the quotes, adds a quote and opens them again. */
  lemma LexQuoteInside(w: string, tail: string)
    ensures Lex("'\\''" + tail, InQuotes(w)) == Lex(tail, InQuotes(w + ['\'']))
  {
    var s0, s1, s2 := "'\\''" + tail, "\\''" + tail, "'" + tail;
    assert s0[1..] == s1 && s1[1..][1..] == s2 && s2[1..] == tail;
    assert s1[1..][0] == '\'';
    assert Lex(s0, InQuotes(w)) == Lex(s1, InWord(w));
    assert Lex(s1, InWord(w)) == Lex(s2, InWord(w + ['\'']));
  }

  lemma LexPlainInside(c: char, w: string, tail: string)
    requires c != '\''
    ensures Lex([c] + tail, InQuotes(w)) == Lex(tail, InQuotes(w + [c]))
  {
    assert ([c] + tail)[1..] == tail;
  }

  lemma EscapedFirst(value: string, rest: string)
    requires value != ""
    ensures EscapeQuotes(value) + "'" + rest
         == (if value[0] == '\'' then "'\\''" else [value[0]]) + (EscapeQuotes(value[1..]) + "'" + rest)
  {
    var first := if value[0] == '\'' then "'\\''" else [value[0]];
    Regroup(first, EscapeQuotes(value[1..]), "'", rest);
  }

  lemma Regroup(a: string, b: string, c: string, d: string)
    ensures a + b + c + d == a + (b + c + d)
  {
  }

  /** Inside quotes the escaped text and its closing quote add exactly the text. */
  lemma {:induction false} LexEscaped(value: string, w: string, rest: string)
    ensures Lex(EscapeQuotes(value) + "'" + rest, InQuotes(w)) == Lex(rest, InWord(w + value))
    decreases |value|
  {
    var whole := EscapeQuotes(value) + "'" + rest;
    if value == "" {
      assert whole[1..] == rest && w + value == w;
    } else {
      var c, tail := value[0], EscapeQuotes(value[1..]) + "'" + rest;
      hide Lex;
      LexEscaped(value[1..], w + [c], rest);
      EscapedFirst(value, rest);
      assert w + [c] + value[1..] == w + value;
      if c == '\'' {
        LexQuoteInside(w, tail);
      } else {
        LexPlainInside(c, w, tail);
      }
    }
  }

  lemma LexQuoted(value: string, rest: string)
    ensures Lex(ShellQuote(value) + rest, Between) == Lex(rest, InWord(value))
  {
    var whole := ShellQuote(value) + rest;
    assert whole[1..] == EscapeQuotes(value) + "'" + rest;
    LexEscaped(value, "", rest);
    assert "" + value == value;
  }

  lemma {:induction false} LexArguments(arguments: seq<string>)
    ensures Words(JoinQuoted(arguments)) == Some(arguments)
    decreases |arguments|
  {
    if arguments == [] {
    } else {
      var first, rest := arguments[0], arguments[1..];
      assert [first] + rest == arguments;
      if |arguments| == 1 {
        LexQuoted(first, "");
        assert ShellQuote(first) + "" == ShellQuote(first);
        assert arguments == [first];
      } else {
        var tail := " " + JoinQuoted(rest);
        assert tail[1..] == JoinQuoted(rest);
        LexQuoted(first, tail);
        assert ShellQuote(first) + " " + JoinQuoted(rest) == ShellQuote(first) + tail;
        LexArguments(rest);
      }
    }
  }

  /** The shell splits the command into the path and the arguments, whatever characters they
      are made of: nothing is expanded, joined, split or dropped. */
  lemma CommandRoundTrip(path: string, arguments: seq<string>)
    ensures Words(Command(path, arguments)) == Some([path] + arguments)
  {
    var tail := " " + JoinQuoted(arguments);
    assert tail[1..] == JoinQuoted(arguments);
    LexQuoted(path, tail);
    assert Command(path, arguments) == ShellQuote(path) + tail;
    LexArguments(arguments);
  }

  /** Different invocations are different command lines. */
  lemma CommandIsInjective(path: string, arguments: seq<string>, path': string, arguments': seq<string>)
    requires Command(path, arguments) == Command(path', arguments')
    ensures path == path' && arguments == arguments'
  {
    CommandRoundTrip(path, arguments);
    CommandRoundTrip(path', arguments');
    var all, all' := [path] + arguments, [path'] + arguments';
    assert all == all' && all[0] == all'[0] && all[1..] == all'[1..];
  }
}
