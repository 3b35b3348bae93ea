/** `shell_join` and the shell that reads its output back. */
module ShellJoin {
  import opened Common

  /** Every `'` becomes `'\''`. */
  function Escape(arg: string): string
  {
    if arg == "" then ""
    else (if arg[0] == '\'' then "'\\''" else [arg[0]]) + Escape(arg[1..])
  }

  function Quote(arg: string): string
  {
    "'" + Escape(arg) + "'"
  }

  function Join(argv: seq<string>): string
  {
    if argv == [] then ""
    else if |argv| == 1 then Quote(argv[0])
    else Quote(argv[0]) + " " + Join(argv[1..])
  }

  lemma {:induction false} EscapeConcat(a: string, b: string)
    ensures Escape(a + b) == Escape(a) + Escape(b)
  {
    if a == "" {
      assert a + b == b;
    } else {
      assert (a + b)[1..] == a[1..] + b;
      EscapeConcat(a[1..], b);
    }
  }

  /** Each character is rendered by itself, and only a single quote differently. */
  lemma EscapeOne(c: char)
    ensures Escape([c]) == if c == '\'' then "'\\''" else [c]
  {
    assert [c][1..] == "";
  }

  /** Arguments stand between single quotes, with one blank between two of them. */
  lemma {:induction false} JoinConcat(a: seq<string>, b: seq<string>)
    requires a != [] && b != []
    ensures Join(a + b) == Join(a) + " " + Join(b)
    ensures |a| == 1 ==> Join(a) == "'" + Escape(a[0]) + "'"
  {
    hide Quote;
    if |a| == 1 {
      assert (a + b)[1..] == b;
      QuoteIs(a[0]);
    } else {
      assert (a + b)[1..] == a[1..] + b && (a + b)[0] == a[0];
      JoinConcat(a[1..], b);
    }
  }

  lemma QuoteIs(arg: string)
    ensures Quote(arg) == "'" + Escape(arg) + "'"
  {
  }

  // ---------- the shell

  /** Characters that mean something to the shell when they are not quoted, other
      than the quoting characters and blanks handled below. */
  predicate Syntax(c: char)
  {
    c in "|&;<>()$`\"\n*?[#~=%"
  }

  function Flush(word: Option<string>, rest: Option<seq<string>>): Option<seq<string>>
  {
    match (word, rest)
    case (Some(w), Some(ws)) => Some([w] + ws)
    case (_, _) => rest
  }

  /** Token recognition (section 2.3 of the POSIX Shell Command Language) outside
      quotes: blanks delimit words, a backslash quotes the next character and joins
      lines before a newline (section 2.2.1), a single quote opens section 2.2.2.
      None when the input is not a list of plain words. */
  function Unquoted(s: string, word: Option<string>): Option<seq<string>>
    decreases |s|
  {
    if s == "" then Flush(word, Some([]))
    else if s[0] == '\'' then Quoted(s[1..], if word.Some? then word.value else "")
    else if s[0] == '\\' then
      if |s| == 1 then None
      else if s[1] == '\n' then Unquoted(s[2..], word)
      else Unquoted(s[2..], Some((if word.Some? then word.value else "") + [s[1]]))
    else if s[0] == ' ' || s[0] == '\t' then Flush(word, Unquoted(s[1..], None))
    else if Syntax(s[0]) then None
    else Unquoted(s[1..], Some((if word.Some? then word.value else "") + [s[0]]))
  }

  /** Between single quotes every character stands for itself. */
  function Quoted(s: string, word: string): Option<seq<string>>
    decreases |s|
  {
    if s == "" then None
    else if s[0] == '\'' then Unquoted(s[1..], Some(word))
    else Quoted(s[1..], word + [s[0]])
  }

  function Words(command: string): Option<seq<string>>
  {
    Unquoted(command, None)
  }

  // ---------- round trip

  lemma EscapedQuote(s: string, word: string)
    ensures Quoted("'\\''" + s, word) == Quoted(s, word + "'")
  {
    var t := "'\\''" + s;
    assert t[1..] == "\\''" + s;
    assert ("\\''" + s)[2..] == "'" + s;
    assert ("'" + s)[1..] == s;
    assert Unquoted("\\''" + s, Some(word)) == Unquoted("'" + s, Some(word + "'"));
  }

  lemma {:induction false} QuotedRestores(arg: string, rest: string, word: string)
    ensures Quoted(Escape(arg) + "'" + rest, word) == Unquoted(rest, Some(word + arg))
  {
    if arg == "" {
      assert Escape(arg) + "'" + rest == "'" + rest;
      assert ("'" + rest)[1..] == rest && word + arg == word;
    } else {
      var tail := Escape(arg[1..]) + "'" + rest;
      if arg[0] == '\'' {
        assert Escape(arg) + "'" + rest == "'\\''" + tail;
        EscapedQuote(tail, word);
      } else {
        assert Escape(arg) + "'" + rest == [arg[0]] + tail;
      }
      QuotedRestores(arg[1..], rest, word + [arg[0]]);
      assert word + [arg[0]] + arg[1..] == word + arg;
    }
  }

  lemma QuoteRestores(arg: string, rest: string)
    ensures Unquoted(Quote(arg) + rest, None) == Unquoted(rest, Some(arg))
  {
    assert (Quote(arg) + rest)[1..] == Escape(arg) + "'" + rest;
    QuotedRestores(arg, rest, "");
    assert "" + arg == arg;
  }

  /** The shell reads the rendered command back as the very argument list it was
      made from: empty arguments, quotes, blanks, newlines and all. */
  lemma {:induction false} ShellRoundTrip(argv: seq<string>)
    ensures Words(Join(argv)) == Some(argv)
  {
    if |argv| == 1 {
      assert Quote(argv[0]) + "" == Quote(argv[0]);
      QuoteRestores(argv[0], "");
      assert argv == [argv[0]] + [];
    } else if |argv| > 1 {
      var rest := Join(argv[1..]);
      assert Join(argv) == Quote(argv[0]) + (" " + rest);
      QuoteRestores(argv[0], " " + rest);
      assert (" " + rest)[1..] == rest;
      ShellRoundTrip(argv[1..]);
      assert argv == [argv[0]] + argv[1..];
    }
  }
}
