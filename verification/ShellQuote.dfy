/** Shell quoting of hook actions (internal/hooks/hooks.go).

    `Tokens` reads a command line by the quoting rules of sections 2.2.1 (escape
    character) and 2.2.2 (single-quotes) of the POSIX.1-2017 Shell Command
    Language; what the daemon prints reads back as the arguments it meant. */
module ShellQuote {
  import opened Prelude
  import opened Text

  // --------------------------------------------------------- reading a line

  datatype Token = Word(text: string) | AndIf

  /** The other characters section 2.2 says to quote, always or in some places:
      operators, expansions, patterns, comments and assignments. A line that has
      one unquoted is outside this reader. */
  predicate Special(c: char) {
    c in "|;<>()$`\"\n*?[#~=%"
  }

  datatype Mode = Plain | InQuotes | Escaping | AfterAmpersand

  /** The reader after some characters: the tokens completed and the word in
      progress. Failed: the line is malformed or uses more of the shell. */
  datatype Reader = Failed | Reader(mode: Mode, tokens: seq<Token>, word: Option<string>)

  function Flushed(tokens: seq<Token>, word: Option<string>): seq<Token> {
    if word.Some? then tokens + [Word(word.value)] else tokens
  }

  function Grown(word: Option<string>, more: string): Option<string> {
    if word.Some? then Some(word.value + more) else Some(more)
  }

  function Step(r: Reader, c: char): Reader {
    if r.Failed? then Failed
    else match r.mode
    case InQuotes => if c == '\'' then r.(mode := Plain) else r.(word := Grown(r.word, [c]))
    case Escaping => if c == '\n' then r.(mode := Plain) else r.(mode := Plain, word := Grown(r.word, [c]))
    case AfterAmpersand => if c == '&' then Reader(Plain, r.tokens + [AndIf], None) else Failed
    case Plain =>
      if c == '\'' then r.(mode := InQuotes, word := Grown(r.word, ""))
      else if c == '\\' then r.(mode := Escaping)
      else if c == ' ' || c == '\t' then Reader(Plain, Flushed(r.tokens, r.word), None)
      else if c == '&' then Reader(AfterAmpersand, Flushed(r.tokens, r.word), None)
      else if Special(c) then Failed
      else r.(word := Grown(r.word, [c]))
  }

  function Read(r: Reader, s: string): Reader {
    if s == "" then r else Step(Read(r, s[..|s| - 1]), s[|s| - 1])
  }

  /** The tokens of a whole line. */
  function Tokens(line: string): Option<seq<Token>> {
    var r := Read(Reader(Plain, [], None), line);
    if r.Failed? || r.mode != Plain then None else Some(Flushed(r.tokens, r.word))
  }

  /** The argument lists between the `&&` of a token list. */
  function Commands(ts: seq<Token>): (argvs: seq<seq<string>>)
    ensures argvs != []
  {
    if ts == [] then [[]]
    else
      var rest := Commands(ts[1..]);
      if ts[0].AndIf? then [[]] + rest else [[ts[0].text] + rest[0]] + rest[1..]
  }

  function Words(argv: seq<string>): seq<Token> {
    if argv == [] then [] else [Word(argv[0])] + Words(argv[1..])
  }

  // -------------------------------------------------------- printing a line

  const ESCAPED_QUOTE := ['\'', '\\', '\'', '\'']

  function EscapedChar(c: char): string {
    if c == '\'' then ESCAPED_QUOTE else [c]
  }

  function Escaped(s: string): string {
    if s == "" then "" else Escaped(s[..|s| - 1]) + EscapedChar(s[|s| - 1])
  }

  function Quoted(s: string): string {
    ['\''] + Escaped(s) + ['\'']
  }

  function QuotedAll(argv: seq<string>): seq<string> {
    seq(|argv|, i requires 0 <= i < |argv| => Quoted(argv[i]))
  }

  function Joined(argv: seq<string>): string {
    Join(QuotedAll(argv), " ")
  }

  method ShellSingleQuote(s: string) returns (out: string)
    ensures out == Quoted(s)
  {
    out := ['\''];
    for i := 0 to |s|
      invariant out == ['\''] + Escaped(s[..i])
    {
      assert s[..i + 1][..i] == s[..i];
      if s[i] == '\'' {
        out := out + ESCAPED_QUOTE;
      } else {
        out := out + [s[i]];
      }
    }
    assert s[..|s|] == s;
    out := out + ['\''];
  }

  method ShellJoin(argv: seq<string>) returns (out: string)
    ensures out == Joined(argv)
  {
    var parts: seq<string> := [];
    for i := 0 to |argv|
      invariant parts == QuotedAll(argv[..i])
    {
      var q := ShellSingleQuote(argv[i]);
      parts := parts + [q];
    }
    assert argv[..|argv|] == argv;
    out := Join(parts, " ");
  }

  datatype Action = Action(run: seq<string>, engine: string, cwd: string)

  /** The arguments of one step inside container `id`. */
  function StepArgv(a: Action, id: string, step: string): seq<string> {
    [if a.engine == "" then "docker" else a.engine, "exec"]
    + (if a.cwd != "" then ["-w", a.cwd] else [])
    + [id, "sh", "-c", step]
  }

  function StepArgvs(a: Action, id: string): seq<seq<string>> {
    seq(|a.run|, i requires 0 <= i < |a.run| => StepArgv(a, id, a.run[i]))
  }

  function JoinedAll(argvs: seq<seq<string>>): seq<string> {
    seq(|argvs|, i requires 0 <= i < |argvs| => Joined(argvs[i]))
  }

  /** renderAction, container path; `id` is what the container resolved to. */
  method RenderContainerAction(a: Action, id: string) returns (out: string)
    ensures out == Join(JoinedAll(StepArgvs(a, id)), SEPARATOR)
  {
    if |a.run| == 0 {
      return "";
    }
    var engine := if a.engine == "" then "docker" else a.engine;
    var parts: seq<string> := [];
    ghost var argvs := StepArgvs(a, id);
    for i := 0 to |a.run|
      invariant parts == JoinedAll(argvs[..i])
    {
      var args := ["exec"];
      if a.cwd != "" {
        args := args + ["-w", a.cwd];
      }
      args := args + [id, "sh", "-c", a.run[i]];
      assert [engine] + args == argvs[i];
      var part := ShellJoin([engine] + args);
      parts := parts + [part];
    }
    assert argvs[..|a.run|] == argvs;
    out := Join(parts, SEPARATOR);
  }

  // ------------------------------------------------------------- reading back

  lemma {:induction false} ReadOn(r: Reader, a: string, b: string)
    ensures Read(r, a + b) == Read(Read(r, a), b)
  {
    if b == "" {
      assert a + b == a;
    } else {
      assert (a + b)[..|a + b| - 1] == a + b[..|b| - 1];
      ReadOn(r, a, b[..|b| - 1]);
    }
  }

  /** Reading `a` and then `b` reads their concatenation `line`. */
  lemma ReadBoth(r: Reader, a: string, middle: Reader, b: string, line: string)
    requires line == a + b && Read(r, a) == middle
    ensures Read(r, line) == Read(middle, b)
  {
    ReadOn(r, a, b);
  }

  lemma ReadOne(r: Reader, c: char)
    ensures Read(r, [c]) == Step(r, c)
  {
    assert [c][..0] == "";
  }

  /** An embedded quote closes the quotes, escapes itself and opens them again. */
  lemma ReadEscapedQuote(tokens: seq<Token>, word: string)
    ensures Read(Reader(InQuotes, tokens, Some(word)), ESCAPED_QUOTE)
         == Reader(InQuotes, tokens, Some(word + ['\'']))
  {
    var q := ESCAPED_QUOTE;
    assert q[..3] == ['\'', '\\', '\''] && q[..3][..2] == ['\'', '\\'] && q[..3][..2][..1] == ['\''];
    var r0 := Reader(InQuotes, tokens, Some(word));
    ReadOne(r0, '\'');
    assert Read(r0, q[..3][..2]) == Reader(Escaping, tokens, Some(word));
    assert Read(r0, q[..3]) == Reader(Plain, tokens, Some(word + ['\'']));
    assert word + ['\''] + "" == word + ['\''];
  }

  lemma ReadEscapedChar(tokens: seq<Token>, word: string, c: char)
    ensures Read(Reader(InQuotes, tokens, Some(word)), EscapedChar(c)) == Reader(InQuotes, tokens, Some(word + [c]))
  {
    if c == '\'' {
      ReadEscapedQuote(tokens, word);
    } else {
      ReadOne(Reader(InQuotes, tokens, Some(word)), c);
    }
  }

  lemma ReadGrows(tokens: seq<Token>, word: string, a: string, front: string, c: char)
    requires Read(Reader(InQuotes, tokens, Some(word)), a) == Reader(InQuotes, tokens, Some(word + front))
    ensures Read(Reader(InQuotes, tokens, Some(word)), a + EscapedChar(c))
         == Reader(InQuotes, tokens, Some(word + (front + [c])))
  {
    ReadOn(Reader(InQuotes, tokens, Some(word)), a, EscapedChar(c));
    ReadEscapedChar(tokens, word + front, c);
    assert word + (front + [c]) == word + front + [c];
  }

  lemma {:induction false} ReadEscaped(tokens: seq<Token>, word: string, s: string)
    ensures Read(Reader(InQuotes, tokens, Some(word)), Escaped(s)) == Reader(InQuotes, tokens, Some(word + s))
  {
    if s == "" {
      assert word + s == word;
    } else {
      var front, c := s[..|s| - 1], s[|s| - 1];
      assert s == front + [c];
      ReadEscaped(tokens, word, front);
      ReadGrows(tokens, word, Escaped(front), front, c);
    }
  }

  /** A quoted string reads as itself, whatever it holds. */
  lemma ReadQuoted(tokens: seq<Token>, s: string)
    ensures Read(Reader(Plain, tokens, None), Quoted(s)) == Reader(Plain, tokens, Some(s))
  {
    var r := Reader(Plain, tokens, None);
    ReadOne(r, '\'');
    ReadOn(r, ['\''], Escaped(s));
    ReadEscaped(tokens, "", s);
    assert "" + s == s;
    ReadOn(r, ['\''] + Escaped(s), ['\'']);
    ReadOne(Reader(InQuotes, tokens, Some(s)), '\'');
  }

  /** Reading a printed argument list leaves its last argument in progress. */
  lemma {:induction false} ReadJoined(tokens: seq<Token>, argv: seq<string>)
    requires argv != []
    ensures Read(Reader(Plain, tokens, None), Joined(argv))
         == Reader(Plain, tokens + Words(argv[..|argv| - 1]), Some(argv[|argv| - 1]))
  {
    var front, last := argv[..|argv| - 1], argv[|argv| - 1];
    if front == [] {
      ReadQuoted(tokens, last);
      assert Joined(argv) == Quoted(last) && tokens + Words(front) == tokens;
    } else {
      ReadJoined(tokens, front);
      AllWords(tokens, front);
      JoinedSnoc(front, last);
      assert argv == front + [last];
      var r, after := Reader(Plain, tokens, None), Reader(Plain, tokens + Words(front), None);
      ReadSpace(r, Joined(front), tokens + Words(front[..|front| - 1]), front[|front| - 1]);
      ReadBoth(r, Joined(front) + " ", after, Quoted(last), Joined(argv));
      ReadQuoted(tokens + Words(front), last);
    }
  }

  lemma JoinedSnoc(front: seq<string>, last: string)
    requires front != []
    ensures Joined(front + [last]) == Joined(front) + " " + Quoted(last)
  {
    assert QuotedAll(front + [last]) == QuotedAll(front) + [Quoted(last)];
    JoinSnoc(QuotedAll(front), Quoted(last), " ");
  }

  /** A space completes the word in progress. */
  lemma ReadSpace(r: Reader, line: string, tokens: seq<Token>, word: string)
    requires Read(r, line) == Reader(Plain, tokens, Some(word))
    ensures Read(r, line + " ") == Reader(Plain, Flushed(tokens, Some(word)), None)
  {
    ReadOn(r, line, " ");
    ReadOne(Read(r, line), ' ');
  }

  lemma {:induction false} WordsSnoc(argv: seq<string>, last: string)
    ensures Words(argv + [last]) == Words(argv) + [Word(last)]
  {
    if argv == [] {
      assert argv + [last] == [last];
    } else {
      assert (argv + [last])[1..] == argv[1..] + [last];
      WordsSnoc(argv[1..], last);
    }
  }

  lemma {:induction false} AllWords(tokens: seq<Token>, argv: seq<string>)
    requires argv != []
    ensures Flushed(tokens + Words(argv[..|argv| - 1]), Some(argv[|argv| - 1])) == tokens + Words(argv)
  {
    var front, last := argv[..|argv| - 1], argv[|argv| - 1];
    assert Words(argv) == Words(front) + [Word(last)] by {
      WordsSnoc(front, last);
      assert front + [last] == argv;
    }
  }

  /** Tokenising shellJoin(argv) gives back argv, whatever the strings hold. */
  lemma ShellRoundTrip(argv: seq<string>)
    ensures Tokens(Joined(argv)) == Some(Words(argv))
  {
    if argv != [] {
      ReadJoined([], argv);
      AllWords([], argv);
      assert [] + Words(argv) == Words(argv);
    }
  }

  // ----------------------------------------------------------- whole actions

  function Listed(argvs: seq<seq<string>>): seq<Token> {
    if argvs == [] then []
    else if |argvs| == 1 then Words(argvs[0])
    else Listed(argvs[..|argvs| - 1]) + [AndIf] + Words(argvs[|argvs| - 1])
  }

  const SEPARATOR := " && "

  lemma ReadSeparator(tokens: seq<Token>, word: string)
    ensures Read(Reader(Plain, tokens, Some(word)), SEPARATOR)
         == Reader(Plain, tokens + [Word(word)] + [AndIf], None)
  {
    var r := Reader(Plain, tokens, Some(word));
    var s := SEPARATOR;
    assert s[..3] == " &&" && s[..3][..2] == " &" && s[..3][..2][..1] == " ";
    ReadOne(r, ' ');
    assert Read(r, s[..3][..2]) == Reader(AfterAmpersand, tokens + [Word(word)], None);
    assert Read(r, s[..3]) == Reader(Plain, tokens + [Word(word)] + [AndIf], None);
  }

  ghost predicate NoneEmpty(argvs: seq<seq<string>>) {
    forall i :: 0 <= i < |argvs| ==> argvs[i] != []
  }

  /** `line` reads as the tokens `ts`, the last of which is a word that could
      still go on. */
  ghost predicate ReadsAs(line: string, ts: seq<Token>) {
    var r := Read(Reader(Plain, [], None), line);
    r.Reader? && r.mode == Plain && r.word.Some? && r.tokens + [Word(r.word.value)] == ts
  }

  lemma ReadCommand(line: string, ts: seq<Token>, argv: seq<string>)
    requires ReadsAs(line, ts) && argv != []
    ensures ReadsAs(line + SEPARATOR + Joined(argv), ts + [AndIf] + Words(argv))
  {
    var r := Reader(Plain, [], None);
    var middle, after := Read(r, line), Reader(Plain, ts + [AndIf], None);
    ReadOn(r, line, SEPARATOR);
    ReadSeparator(middle.tokens, middle.word.value);
    ReadBoth(r, line + SEPARATOR, after, Joined(argv), line + SEPARATOR + Joined(argv));
    ReadJoined(ts + [AndIf], argv);
    AllWords(ts + [AndIf], argv);
  }

  lemma JoinedAllSnoc(front: seq<seq<string>>, last: seq<string>)
    requires front != []
    ensures Join(JoinedAll(front + [last]), SEPARATOR) == Join(JoinedAll(front), SEPARATOR) + SEPARATOR + Joined(last)
  {
    assert JoinedAll(front + [last]) == JoinedAll(front) + [Joined(last)];
    JoinSnoc(JoinedAll(front), Joined(last), SEPARATOR);
  }

  lemma {:induction false} ReadList(argvs: seq<seq<string>>)
    requires argvs != [] && NoneEmpty(argvs)
    ensures ReadsAs(Join(JoinedAll(argvs), SEPARATOR), Listed(argvs))
  {
    var front, last := argvs[..|argvs| - 1], argvs[|argvs| - 1];
    if front == [] {
      ReadJoined([], last);
      AllWords([], last);
      assert JoinedAll(argvs) == [Joined(last)];
    } else {
      ReadList(front);
      ReadCommand(Join(JoinedAll(front), SEPARATOR), Listed(front), last);
      assert argvs == front + [last];
      JoinedAllSnoc(front, last);
      ListedSnoc(front, last);
    }
  }

  lemma {:induction false} CommandsSnoc(ts: seq<Token>, argv: seq<string>)
    ensures Commands(ts + [AndIf] + Words(argv)) == Commands(ts) + [argv]
  {
    if ts == [] {
      CommandsOfWords(argv);
      assert (ts + [AndIf] + Words(argv))[1..] == Words(argv);
    } else {
      assert (ts + [AndIf] + Words(argv))[1..] == ts[1..] + [AndIf] + Words(argv);
      CommandsSnoc(ts[1..], argv);
    }
  }

  lemma {:induction false} CommandsOfWords(argv: seq<string>)
    ensures Commands(Words(argv)) == [argv]
  {
    if argv != [] {
      CommandsOfWords(argv[1..]);
      assert Words(argv)[1..] == Words(argv[1..]);
      assert [argv[0]] + argv[1..] == argv;
    }
  }

  lemma ListedSnoc(front: seq<seq<string>>, last: seq<string>)
    requires front != []
    ensures Listed(front + [last]) == Listed(front) + [AndIf] + Words(last)
  {
    assert (front + [last])[..|front|] == front;
  }

  lemma {:induction false} CommandsOfList(argvs: seq<seq<string>>)
    requires argvs != []
    ensures Commands(Listed(argvs)) == argvs
  {
    if |argvs| == 1 {
      CommandsOfWords(argvs[0]);
    } else {
      var front, last := argvs[..|argvs| - 1], argvs[|argvs| - 1];
      assert argvs == front + [last];
      CommandsOfList(front);
      ListedSnoc(front, last);
      CommandsSnoc(Listed(front), last);
    }
  }

  /** A rendered container action, split at its unquoted `&&`, is exactly one
      `exec` argument list per step, in order: the engine, docker unless the action
      names one, the working directory if it has one, the container, and the step
      for a shell. */
  lemma ContainerActionRoundTrip(a: Action, id: string)
    requires a.run != []
    ensures Tokens(Join(JoinedAll(StepArgvs(a, id)), SEPARATOR)).Some?
    ensures var argvs := Commands(Tokens(Join(JoinedAll(StepArgvs(a, id)), SEPARATOR)).value);
            var engine := if a.engine == "" then "docker" else a.engine;
            && |argvs| == |a.run|
            && forall i :: 0 <= i < |a.run| ==>
                 argvs[i] == if a.cwd == "" then [engine, "exec", id, "sh", "-c", a.run[i]]
                             else [engine, "exec", "-w", a.cwd, id, "sh", "-c", a.run[i]]
  {
    ReadList(StepArgvs(a, id));
    CommandsOfList(StepArgvs(a, id));
  }
}
