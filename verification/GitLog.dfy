/** How a gate reads `git log --name-only`: it strips the whole output, splits it into
    lines and drops empty ones; and when that gives back the names git was to print. */
module GitLog {
  import opened Text

  // ---------- Python's text functions

  /** A line boundary of `str.splitlines`. */
  predicate Break(c: char)
  {
    || '\U{0a}' <= c <= '\U{0d}' || '\U{1c}' <= c <= '\U{1e}' || c == '\U{85}' || '\U{2028}' <= c <= '\U{2029}'
  }

  /** A character that `str.strip` removes. */
  predicate Blank(c: char)
  {
    || c == ' ' || c == '\t' || Break(c) || c == '\U{1f}' || c == '\U{a0}' || c == '\U{1680}'
    || '\U{2000}' <= c <= '\U{200a}' || c == '\U{202f}' || c == '\U{205f}' || c == '\U{3000}'
  }

  predicate AllBlank(s: string)
  {
    forall i | 0 <= i < |s| :: Blank(s[i])
  }

  function StripLeft(s: string): (t: string)
    ensures AllBlank(s) <==> t == ""
    ensures t == s || (|t| < |s| && Blank(s[0]))
    ensures t != "" ==> !Blank(t[0]) && t[|t| - 1] == s[|s| - 1]
    ensures forall c | c in t :: c in s
  {
    if s != "" && Blank(s[0]) then StripLeft(s[1..]) else s
  }

  function StripRight(s: string): (t: string)
    ensures AllBlank(s) <==> t == ""
    ensures t == s || (|t| < |s| && Blank(s[|s| - 1]))
    ensures t != "" ==> !Blank(t[|t| - 1]) && t[0] == s[0]
    ensures forall c | c in t :: c in s
  {
    if s != "" && Blank(s[|s| - 1]) then StripRight(s[..|s| - 1]) else s
  }

  function Strip(s: string): string
  {
    StripRight(StripLeft(s))
  }

  /** `s.splitlines()`, but for empty lines at the end. */
  function SplitLines(s: string): (lines: seq<string>)
    ensures |lines| >= 1
  {
    if s == "" then [""]
    else
      var rest := SplitLines(s[1..]);
      if Break(s[0]) then [""] + rest else [[s[0]] + rest[0]] + rest[1..]
  }

  /** The names the gate takes from the output. */
  function ReadNames(output: string): set<string>
  {
    Elems(SplitLines(Strip(output))) - {""}
  }

  // ---------- lines

  /** What a program writes that prints these lines. */
  function Unlines(lines: seq<string>): string
  {
    if lines == [] then "" else lines[0] + ("\n" + Unlines(lines[1..]))
  }

  predicate OneLine(s: string)
  {
    forall c | c in s :: !Break(c)
  }

  predicate AllLines(lines: seq<string>)
  {
    forall l | l in lines :: OneLine(l)
  }

  /** The lines after stripping on the left. */
  function DropLeft(lines: seq<string>): seq<string>
  {
    if lines == [] then []
    else if AllBlank(lines[0]) then DropLeft(lines[1..])
    else [StripLeft(lines[0])] + lines[1..]
  }

  /** The lines after stripping on the right. */
  function DropRight(lines: seq<string>): seq<string>
  {
    if lines == [] then []
    else
      var last := |lines| - 1;
      if AllBlank(lines[last]) then DropRight(lines[..last]) else lines[..last] + [StripRight(lines[last])]
  }

  lemma FirstStripped(c: char, s: string)
    ensures StripLeft([c] + s) == if Blank(c) then StripLeft(s) else [c] + s
    ensures AllBlank([c] + s) <==> Blank(c) && AllBlank(s)
  {
    hide Blank;
    var t := [c] + s;
    assert t[1..] == s && t[0] == c && forall i | 0 <= i < |s| :: t[i + 1] == s[i];
  }

  lemma LastStripped(s: string, c: char)
    ensures StripRight(s + [c]) == if Blank(c) then StripRight(s) else s + [c]
    ensures AllBlank(s + [c]) <==> AllBlank(s) && Blank(c)
  {
    hide Blank;
    var t := s + [c];
    assert t[..|s|] == s && t[|s|] == c;
  }

  lemma {:induction false} StripLeftConcat(a: string, b: string)
    ensures StripLeft(a + b) == if AllBlank(a) then StripLeft(b) else StripLeft(a) + b
  {
    if a == "" {
      assert a + b == b;
    } else {
      hide Blank, AllBlank, StripLeft;
      var c, rest := a[0], a[1..];
      assert a == [c] + rest && a + b == [c] + (rest + b);
      FirstStripped(c, rest);
      FirstStripped(c, rest + b);
      StripLeftConcat(rest, b);
    }
  }

  lemma {:induction false} StripRightConcat(a: string, b: string)
    ensures StripRight(a + b) == if AllBlank(b) then StripRight(a) else a + StripRight(b)
  {
    if b == "" {
      assert a + b == a;
    } else {
      hide Blank, AllBlank, StripRight;
      var init, c := b[..|b| - 1], b[|b| - 1];
      assert b == init + [c] && a + b == (a + init) + [c];
      LastStripped(init, c);
      LastStripped(a + init, c);
      StripRightConcat(a, init);
    }
  }

  lemma {:induction false} StripLeftLines(lines: seq<string>)
    ensures StripLeft(Unlines(lines)) == Unlines(DropLeft(lines))
  {
    hide AllBlank, StripLeft;
    if lines == [] {
      StripLeftEmpty();
    } else {
      StripLeftConcat(lines[0], "\n" + Unlines(lines[1..]));
      if AllBlank(lines[0]) {
        StripLeftConcat("\n", Unlines(lines[1..]));
        NewlineIsBlank();
        StripLeftLines(lines[1..]);
      }
    }
  }

  lemma StripLeftEmpty()
    ensures StripLeft("") == "" && StripRight("") == ""
  {
  }

  lemma NewlineIsBlank()
    ensures AllBlank("\n") && StripRight("\n") == "" && StripLeft("\n") == ""
  {
  }

  lemma Regroup(line: string, end: string, rest: string, last: string)
    ensures line + (end + (rest + last + end)) == line + (end + rest) + last + end
  {
  }

  lemma {:induction false} UnlinesLast(lines: seq<string>, last: string)
    ensures Unlines(lines + [last]) == Unlines(lines) + last + "\n"
  {
    if lines == [] {
      assert lines + [last] == [last] && [last][1..] == [];
    } else {
      assert (lines + [last])[1..] == lines[1..] + [last];
      UnlinesLast(lines[1..], last);
      Regroup(lines[0], "\n", Unlines(lines[1..]), last);
    }
  }

  /** Lines joined without a newline at the end. */
  function Joined(lines: seq<string>): string
  {
    if lines == [] then "" else Unlines(lines[..|lines| - 1]) + lines[|lines| - 1]
  }

  lemma {:induction false} StripRightLines(lines: seq<string>)
    ensures StripRight(Unlines(lines)) == Joined(DropRight(lines))
  {
    hide AllBlank, StripRight;
    if lines == [] {
      StripLeftEmpty();
    } else {
      var init, last := lines[..|lines| - 1], lines[|lines| - 1];
      assert lines == init + [last];
      UnlinesLast(init, last);
      StripRightConcat(Unlines(init) + last, "\n");
      NewlineIsBlank();
      StripRightConcat(Unlines(init), last);
      if AllBlank(last) {
        StripRightLines(init);
      } else {
        var dropped := init + [StripRight(last)];
        assert dropped[..|dropped| - 1] == init;
      }
    }
  }

  lemma {:induction false} SplitLinesFirst(line: string, rest: string)
    requires OneLine(line)
    ensures SplitLines(line) == [line] && SplitLines(line + ("\n" + rest)) == [line] + SplitLines(rest)
  {
    var s := line + ("\n" + rest);
    if line == "" {
      assert s[1..] == rest;
    } else {
      assert s[1..] == line[1..] + ("\n" + rest);
      assert forall c | c in line[1..] :: c in line;
      SplitLinesFirst(line[1..], rest);
      assert [line[0]] + line[1..] == line;
    }
  }

  lemma {:induction false} SplitLinesUnlines(lines: seq<string>, last: string)
    requires AllLines(lines) && OneLine(last)
    ensures SplitLines(Unlines(lines) + last) == lines + [last]
  {
    hide OneLine, SplitLines;
    if lines == [] {
      SplitLinesFirst(last, "");
      assert Unlines(lines) + last == last;
    } else {
      assert lines[0] in lines && forall l | l in lines[1..] :: l in lines;
      SplitLinesUnlines(lines[1..], last);
      SplitLinesFirst(lines[0], Unlines(lines[1..]) + last);
      assert Unlines(lines) + last == lines[0] + ("\n" + (Unlines(lines[1..]) + last));
      assert [lines[0]] + (lines[1..] + [last]) == lines + [last];
    }
  }

  lemma {:induction false} DropLeftLines(lines: seq<string>)
    requires AllLines(lines)
    ensures AllLines(DropLeft(lines))
  {
    if lines != [] {
      assert lines[0] in lines && forall l | l in lines[1..] :: l in lines;
      if AllBlank(lines[0]) { DropLeftLines(lines[1..]); }
    }
  }

  lemma {:induction false} DropRightLines(lines: seq<string>)
    requires AllLines(lines)
    ensures AllLines(DropRight(lines))
  {
    if lines != [] {
      var last := |lines| - 1;
      assert lines[last] in lines && forall l | l in lines[..last] :: l in lines;
      if AllBlank(lines[last]) { DropRightLines(lines[..last]); }
    }
  }

  lemma NamesOfJoined(lines: seq<string>)
    requires AllLines(lines)
    ensures Elems(SplitLines(Joined(lines))) - {""} == Elems(lines) - {""}
  {
    hide SplitLines, OneLine, Unlines;
    if lines == [] {
      NoLine();
    } else {
      var init, last := lines[..|lines| - 1], lines[|lines| - 1];
      assert lines == init + [last];
      assert last in lines && forall l | l in init :: l in lines;
      SplitLinesUnlines(init, last);
    }
  }

  /** What stripping the whole output does to the lines in it. */
  lemma ReadNamesOfLines(lines: seq<string>)
    requires AllLines(lines)
    ensures ReadNames(Unlines(lines)) == Elems(DropRight(DropLeft(lines))) - {""}
  {
    hide StripLeft, StripRight, DropLeft, DropRight, SplitLines, OneLine, Unlines, Joined, Elems, AllLines;
    StripLeftLines(lines);
    DropLeftLines(lines);
    StripRightLines(DropLeft(lines));
    DropRightLines(DropLeft(lines));
    NamesOfJoined(DropRight(DropLeft(lines)));
  }

  lemma NoLine()
    ensures SplitLines("") == [""] && Elems([""]) == {""} && Elems([]) == {}
  {
  }

  // ---------- which names survive

  /** Stripping would shorten this name. */
  predicate Outer(name: string)
  {
    name != "" && (Blank(name[0]) || Blank(name[|name| - 1]))
  }

  /** A line without blanks at its ends is read, whatever stands around it. */
  lemma {:induction false} DropLeftKeeps(lines: seq<string>, x: string)
    requires x in lines && x != "" && !Outer(x)
    ensures x in DropLeft(lines)
  {
    if AllBlank(lines[0]) { DropLeftKeeps(lines[1..], x); }
  }

  lemma {:induction false} DropRightKeeps(lines: seq<string>, x: string)
    requires x in lines && x != "" && !Outer(x)
    ensures x in DropRight(lines)
  {
    var last := |lines| - 1;
    assert lines == lines[..last] + [lines[last]];
    if AllBlank(lines[last]) { DropRightKeeps(lines[..last], x); }
  }

  lemma LineIsRead(lines: seq<string>, x: string)
    requires AllLines(lines) && x in lines && x != "" && !Outer(x)
    ensures x in ReadNames(Unlines(lines))
  {
    hide OneLine, DropLeft, DropRight, Outer, ReadNames;
    ReadNamesOfLines(lines);
    DropLeftKeeps(lines, x);
    DropRightKeeps(DropLeft(lines), x);
  }

  /** No line is `p`, and none that stripping shortens is longer than `p`. */
  predicate Below(lines: seq<string>, p: string)
  {
    forall l | l in lines :: l != p && (Outer(l) ==> |l| <= |p|)
  }

  lemma {:induction false} DropLeftBelow(lines: seq<string>, p: string)
    requires Below(lines, p)
    ensures Below(DropLeft(lines), p)
  {
    if lines != [] {
      assert lines[0] in lines && forall l | l in lines[1..] :: l in lines;
      if AllBlank(lines[0]) { DropLeftBelow(lines[1..], p); }
    }
  }

  lemma {:induction false} DropRightBelow(lines: seq<string>, p: string)
    requires Below(lines, p)
    ensures Below(DropRight(lines), p)
  {
    if lines != [] {
      var last := |lines| - 1;
      assert lines[last] in lines && forall l | l in lines[..last] :: l in lines;
      if AllBlank(lines[last]) { DropRightBelow(lines[..last], p); }
    }
  }

  lemma {:induction false} DropLeftLast(lines: seq<string>, p: string)
    ensures DropLeft(lines + [p]) == DropLeft(lines) + [p] || DropLeft(lines + [p]) == DropLeft([p])
  {
    if lines == [] {
      assert lines + [p] == [p];
    } else {
      assert (lines + [p])[1..] == lines[1..] + [p];
      if AllBlank(lines[0]) { DropLeftLast(lines[1..], p); }
    }
  }

  /** A name that begins with a blank is lost as the first line, ... */
  lemma FirstIsLost(lines: seq<string>, p: string)
    requires Below(lines, p) && p != "" && Blank(p[0])
    ensures p !in DropRight(DropLeft([p] + lines))
  {
    assert ([p] + lines)[1..] == lines;
    if AllBlank(p) {
      DropLeftBelow(lines, p);
      DropRightBelow(DropLeft(lines), p);
    } else {
      DropRightBelow([StripLeft(p)] + lines, p);
    }
  }

  /** ... and one that ends with a blank as the last. */
  lemma LastIsLost(lines: seq<string>, p: string)
    requires Below(lines, p) && p != "" && Blank(p[|p| - 1])
    ensures p !in DropRight(DropLeft(lines + [p]))
  {
    hide DropLeft;
    DropLeftLast(lines, p);
    DropLeftBelow(lines, p);
    var left := DropLeft(lines);
    if DropLeft(lines + [p]) == left + [p] {
      assert (left + [p])[..|left|] == left;
      DropRightBelow(left, p);
    } else {
      AloneIsLost(p);
    }
  }

  lemma AloneIsLost(p: string)
    requires p != "" && Blank(p[|p| - 1])
    ensures p !in DropRight(DropLeft([p]))
  {
    assert [p][1..] == [];
    if !AllBlank(p) {
      var q := StripLeft(p);
      assert DropLeft([p]) == [q] && [q][..0] == [];
      assert DropRight([q]) == [StripRight(q)];
    }
  }

  // ---------- printed names

  predicate Printable(c: char)
  {
    ' ' <= c <= '~'
  }

  /** A name git prints as it is. */
  predicate PlainName(name: string)
  {
    forall c | c in name :: Printable(c) && c != '"' && c != '\\'
  }

  function Escaped(escape: char -> string, name: string): string
  {
    if name == "" then "" else escape(name[0]) + Escaped(escape, name[1..])
  }

  /** Every character is written with printable ones. */
  ghost predicate Escapes(escape: char -> string)
  {
    forall c :: |escape(c)| >= 1 && forall d | d in escape(c) :: Printable(d)
  }

  /** How git prints a name: any other one goes between quotes, with escapes. */
  function Shown(escape: char -> string, name: string): string
  {
    if PlainName(name) then name else "\"" + Escaped(escape, name) + "\""
  }

  function AllShown(escape: char -> string, names: set<string>): set<string>
  {
    set name | name in names :: Shown(escape, name)
  }

  /** The output lists these names, in some order and as often as it likes. */
  ghost predicate Prints(escape: char -> string, output: string, names: set<string>)
  {
    exists lines :: output == Unlines(lines) && Elems(lines) == AllShown(escape, names)
  }

  lemma PlainNamesPrint(escape: char -> string, lines: seq<string>)
    requires forall l | l in lines :: PlainName(l)
    ensures Prints(escape, Unlines(lines), Elems(lines))
  {
    hide PlainName, Unlines;
    assert forall name | name in Elems(lines) :: Shown(escape, name) == name;
    assert AllShown(escape, Elems(lines)) == Elems(lines);
  }

  predicate ReadableName(name: string)
  {
    PlainName(name) && !Outer(name)
  }

  predicate AllReadable(names: set<string>)
  {
    forall name | name in names :: name != "" && ReadableName(name)
  }

  lemma {:induction false} EscapedIsPrintable(escape: char -> string, name: string)
    requires Escapes(escape)
    ensures |Escaped(escape, name)| >= |name| && forall c | c in Escaped(escape, name) :: Printable(c)
  {
    if name != "" { EscapedIsPrintable(escape, name[1..]); }
  }

  lemma ShownIsOneLine(escape: char -> string, name: string)
    requires Escapes(escape)
    ensures OneLine(Shown(escape, name))
    ensures !PlainName(name) ==>
              |Shown(escape, name)| > |name| && !PlainName(Shown(escape, name)) && !Outer(Shown(escape, name))
  {
    hide Escapes, Escaped;
    EscapedIsPrintable(escape, name);
    if !PlainName(name) {
      var s := Shown(escape, name);
      assert s[0] == '"' && s[|s| - 1] == '"' && s[0] in s;
    }
  }

  lemma ShownAreLines(escape: char -> string, names: set<string>, lines: seq<string>)
    requires Escapes(escape) && Elems(lines) == AllShown(escape, names)
    ensures AllLines(lines)
  {
    hide OneLine, Shown, Escapes;
    forall l | l in lines ensures OneLine(l) {
      assert l in AllShown(escape, names) by { assert l in Elems(lines); }
      var name :| name in names && l == Shown(escape, name);
      ShownIsOneLine(escape, name);
    }
  }

  lemma {:induction false} Longest(s: set<string>) returns (p: string)
    requires s != {}
    ensures p in s && forall q | q in s :: |q| <= |p|
  {
    p :| p in s;
    if s != {p} {
      var q := Longest(s - {p});
      if |q| > |p| { p := q; }
    }
  }

  lemma KeepsFirst(lines: seq<string>)
    requires lines != [] && lines[0] != "" && !Blank(lines[0][0])
    ensures DropLeft(lines) == lines
  {
    hide Blank;
    assert !AllBlank(lines[0]) && StripLeft(lines[0]) == lines[0];
    assert lines == [lines[0]] + lines[1..];
  }

  lemma KeepsLast(lines: seq<string>)
    requires lines != [] && var last := lines[|lines| - 1]; last != "" && !Blank(last[|last| - 1])
    ensures DropRight(lines) == lines
  {
    hide Blank;
    var last := lines[|lines| - 1];
    assert !AllBlank(last) && StripRight(last) == last;
    assert lines == lines[..|lines| - 1] + [last];
  }

  lemma NothingDropped(lines: seq<string>)
    requires forall l | l in lines :: l != "" && !Outer(l)
    ensures DropLeft(lines) == lines && DropRight(lines) == lines
  {
    hide Blank;
    if lines != [] {
      assert lines[0] in lines && lines[|lines| - 1] in lines;
      KeepsFirst(lines);
      KeepsLast(lines);
    }
  }

  lemma ReadableAreRead(escape: char -> string, names: set<string>, lines: seq<string>)
    requires Escapes(escape) && AllReadable(names) && Elems(lines) == AllShown(escape, names)
    ensures ReadNames(Unlines(lines)) == names
  {
    hide Escapes, DropLeft, DropRight, ReadNames, Unlines, OneLine;
    ShownAreLines(escape, names, lines);
    ReadNamesOfLines(lines);
    assert forall name | name in names :: Shown(escape, name) == name;
    assert AllShown(escape, names) == names;
    forall l | l in lines ensures l != "" && !Outer(l) { assert l in Elems(lines); }
    NothingDropped(lines);
    assert "" !in names;
  }

  /** A quoted name is never read as one of the names. */
  lemma QuotedIsMisread(escape: char -> string, names: set<string>, lines: seq<string>)
    requires Escapes(escape) && Elems(lines) == AllShown(escape, names)
    requires exists name :: name in names && !PlainName(name)
    ensures ReadNames(Unlines(lines)) != names
  {
    hide Escapes, ReadNames, Unlines, PlainName, Shown, OneLine, Outer;
    var quoted := set name | name in names && !PlainName(name);
    var odd :| odd in names && !PlainName(odd);
    assert odd in quoted;
    var p := Longest(quoted);
    ShownIsOneLine(escape, p);
    var shown := Shown(escape, p);
    assert shown in AllShown(escape, names);
    assert shown in Elems(lines);
    ShownAreLines(escape, names, lines);
    LineIsRead(lines, shown);
    assert shown !in quoted;
  }

  /** Some order of the names loses the longest one that stripping shortens. */
  lemma OuterIsLost(names: set<string>) returns (lines: seq<string>)
    requires (forall name | name in names :: PlainName(name)) && exists name :: name in names && Outer(name)
    ensures Elems(lines) == names && exists p :: p in names && p !in DropRight(DropLeft(lines))
  {
    hide PlainName, DropLeft, DropRight, Sorted;
    var outer := set name | name in names && Outer(name);
    var odd :| odd in names && Outer(odd);
    assert odd in outer;
    var p := Longest(outer);
    var others := Sorted(names - {p});
    forall l | l in others ensures l != p && (Outer(l) ==> |l| <= |p|) {
      assert l in Elems(others);
      assert Outer(l) ==> l in outer;
    }
    if Blank(p[0]) {
      lines := [p] + others;
      FirstIsLost(others, p);
    } else {
      lines := others + [p];
      LastIsLost(others, p);
    }
    assert forall x :: x in lines <==> x == p || x in Elems(others);
    assert Elems(lines) == names;
  }

  /** Exactly the names are read in every order of the lines, if and only if each of them
      is printed as it is and neither begins nor ends with a blank. */
  lemma ReadsNamesIff(escape: char -> string, names: set<string>)
    requires Escapes(escape) && "" !in names
    ensures (forall output | Prints(escape, output, names) :: ReadNames(output) == names) <==> AllReadable(names)
  {
    hide Escapes, ReadNames, Unlines, DropLeft, DropRight, PlainName, Outer, Sorted, OneLine;
    if AllReadable(names) {
      forall output | Prints(escape, output, names) ensures ReadNames(output) == names {
        var lines :| output == Unlines(lines) && Elems(lines) == AllShown(escape, names);
        ReadableAreRead(escape, names, lines);
      }
    } else if exists name :: name in names && !PlainName(name) {
      var lines := Sorted(AllShown(escape, names));
      QuotedIsMisread(escape, names, lines);
      assert Prints(escape, Unlines(lines), names);
    } else {
      var lines := OuterIsLost(names);
      assert AllShown(escape, names) == names;
      ShownAreLines(escape, names, lines);
      ReadNamesOfLines(lines);
      assert Prints(escape, Unlines(lines), names);
    }
  }
}
