/** What patterns and atoms mean, by cutting the text into one piece per token and the
    path into one stretch per segment, without the recursion that decides it. */
module GlobMeaning {
  import opened Text
  import opened Glob

  function Concat<T>(pieces: seq<seq<T>>): seq<T>
  {
    if pieces == [] then [] else pieces[0] + Concat(pieces[1..])
  }

  // ---------- character classes

  /** The characters from `lo` to `hi`, both included; none when they are out of order. */
  datatype Span = Span(lo: char, hi: char)

  /** The single characters and ranges a class is written with. */
  function Spans(body: string): seq<Span>
  {
    if |body| >= 3 && body[1] == '-' then [Span(body[0], body[2])] + Spans(body[3..])
    else if body == "" then []
    else [Span(body[0], body[0])] + Spans(body[1..])
  }

  ghost predicate InSome(spans: seq<Span>, c: char)
  {
    exists i :: 0 <= i < |spans| && spans[i].lo <= c <= spans[i].hi
  }

  lemma {:induction false} InSetIff(body: string, c: char)
    ensures InSet(body, c) <==> InSome(Spans(body), c)
  {
    if body != "" {
      var width := if |body| >= 3 && body[1] == '-' then 3 else 1;
      var spans, rest := Spans(body), Spans(body[width..]);
      InSetIff(body[width..], c);
      assert spans == [spans[0]] + rest;
      if i :| 0 <= i < |rest| && rest[i].lo <= c <= rest[i].hi { assert spans[i + 1] == rest[i]; }
      if i :| 0 <= i < |spans| && spans[i].lo <= c <= spans[i].hi { assert i > 0 ==> rest[i - 1] == spans[i]; }
    }
  }

  /** A class is the characters of its ranges, or with `!` in front the others. */
  lemma InClassIff(body: string, c: char)
    ensures body != "" && body[0] == '!' ==> (InClass(body, c) <==> !InSome(Spans(body[1..]), c))
    ensures body == "" || (body[0] != '!' && !EmptyRangeFirst(body)) ==> (InClass(body, c) <==> InSome(Spans(body), c))
  {
    InSetIff(body, c);
    if body != "" { InSetIff(body[1..], c); }
  }

  /** The class starts with a range that is out of order. */
  predicate EmptyRangeFirst(body: string)
  {
    |body| >= 3 && body[1] == '-' && body[0] > body[2]
  }

  /** Empty ranges in front are dropped, and what then comes first counts as if it were
      written first; only a range that starts with `!` falls apart. */
  lemma EmptyRangeIsDropped(body: string, c: char)
    requires EmptyRangeFirst(body) && body[0] != '!'
    ensures var rest := body[3..];
      if EmptyRangeFirst(rest) then InClass(body, c) <==> InClass(body[..3] + rest[3..], c)
      else if |rest| >= 3 && rest[0] == '!' && rest[1] == '-' then
        InClass(body, c) <==> c != '-' && c != rest[2] && !InSome(Spans(rest[3..]), c)
      else InClass(body, c) <==> InClass(rest, c)
  {
    var rest := body[3..];
    assert DropEmptyRanges(body) == DropEmptyRanges(rest);
    if EmptyRangeFirst(rest) {
      var other := body[..3] + rest[3..];
      assert other[3..] == rest[3..] && other[0] == body[0] && other[1] == body[1] && other[2] == body[2];
      assert DropEmptyRanges(other) == DropEmptyRanges(rest[3..]) == DropEmptyRanges(rest);
    } else {
      assert DropEmptyRanges(rest) == rest;
      if |rest| >= 3 { InSetIff(rest[3..], c); }
    }
  }

  // ---------- tokens

  datatype Token = AnyText | AnyChar | Class(body: string) | Literal(c: char)

  /** How a token is written. */
  function Written(token: Token): string
  {
    match token
    case AnyText => "*"
    case AnyChar => "?"
    case Class(body) => "[" + body + "]"
    case Literal(c) => [c]
  }

  function Tokens(pat: string): seq<Token>
  {
    if pat == "" then []
    else if pat[0] == '*' then [AnyText] + Tokens(pat[1..])
    else if pat[0] == '?' then [AnyChar] + Tokens(pat[1..])
    else if pat[0] == '[' && ClassClose(pat) < |pat| then
      [Class(pat[1..ClassClose(pat)])] + Tokens(pat[ClassClose(pat) + 1..])
    else [Literal(pat[0])] + Tokens(pat[1..])
  }

  /** A class ends at the first `]` after its first character, not counting `!`. */
  predicate ProperBody(body: string)
  {
    var rest := if body != "" && body[0] == '!' then body[1..] else body;
    rest != "" && ']' !in rest[1..]
  }

  /** Some `]` closes the class that this text opens. */
  ghost predicate Closes(pat: string)
  {
    exists body :: ProperBody(body) && "[" + body + "]" <= pat
  }

  lemma ClassCloseIff(pat: string)
    requires pat != "" && pat[0] == '['
    ensures ClassClose(pat) < |pat| ==> ProperBody(pat[1..ClassClose(pat)]) && "[" + pat[1..ClassClose(pat)] + "]" <= pat
    ensures ClassClose(pat) < |pat| <==> Closes(pat)
  {
    var i := ClassClose(pat);
    var j := if 1 < |pat| && pat[1] == '!' then 2 else 1;
    var k := if j < |pat| && pat[j] == ']' then j + 1 else j;
    IndexIsFirst(pat, k, ']');
    if i < |pat| {
      var body := pat[1..i];
      assert i > j;
      var rest := if body[0] == '!' then body[1..] else body;
      assert rest == pat[j..i];
      forall c | c in rest[1..] ensures c != ']' {
        var m :| 0 <= m < |rest[1..]| && rest[1..][m] == c;
        assert c == pat[j + 1 + m];
      }
      assert "[" + body + "]" == pat[..i + 1];
    }
    if body :| ProperBody(body) && "[" + body + "]" <= pat { ClosedByBody(pat, body); }
  }

  lemma ClosedByBody(pat: string, body: string)
    requires ProperBody(body) && "[" + body + "]" <= pat
    ensures ClassClose(pat) < |pat|
  {
    var j := if 1 < |pat| && pat[1] == '!' then 2 else 1;
    var k := if j < |pat| && pat[j] == ']' then j + 1 else j;
    var written, end := "[" + body + "]", |body| + 1;
    assert forall m | 0 <= m <= end :: pat[m] == written[m];
    assert body != "" && pat[1] == body[0];
    assert k <= end && pat[end] == ']';
    IndexIsFirst(pat, k, ']');
  }

  /** A bracket is itself only where no class closes, and the other special characters never are. */
  ghost predicate TokenOk(token: Token, from: string)
  {
    match token
    case Literal(c) => c != '*' && c != '?' && (c == '[' ==> !Closes(from))
    case Class(body) => ProperBody(body)
    case _ => true
  }

  /** The tokens are read off the pattern as it is written. */
  ghost predicate ReadAs(pat: string, tokens: seq<Token>)
  {
    if tokens == [] then pat == ""
    else
      && Written(tokens[0]) <= pat && TokenOk(tokens[0], pat)
      && ReadAs(pat[|Written(tokens[0])|..], tokens[1..])
  }

  lemma FirstToken(pat: string)
    requires pat != ""
    ensures var token := Tokens(pat)[0];
      Written(token) <= pat && TokenOk(token, pat) && Tokens(pat)[1..] == Tokens(pat[|Written(token)|..])
  {
    hide ClassClose, ProperBody, Closes;
    if pat[0] == '[' {
      ClassCloseIff(pat);
      var i := ClassClose(pat);
      if i < |pat| { assert |"[" + pat[1..i] + "]"| == i + 1; }
    }
  }

  lemma {:induction false} TokensReadAs(pat: string)
    ensures ReadAs(pat, Tokens(pat))
  {
    hide Tokens, TokenOk;
    if pat == "" {
      NoTokens();
    } else {
      SomeTokens(pat);
      FirstToken(pat);
      TokensReadAs(pat[|Written(Tokens(pat)[0])|..]);
    }
  }

  lemma NoTokens()
    ensures Tokens("") == []
  {
  }

  lemma SomeTokens(pat: string)
    requires pat != ""
    ensures Tokens(pat) != [] && |Written(Tokens(pat)[0])| > 0
  {
  }

  /** And only one list of tokens is. */
  lemma {:induction false} ReadAsUnique(pat: string, tokens: seq<Token>)
    requires ReadAs(pat, tokens)
    ensures tokens == Tokens(pat)
    decreases tokens
  {
    hide TokenOk;
    if tokens != [] {
      SomeTokens(pat);
      FirstToken(pat);
      SameFirstToken(pat, tokens[0], Tokens(pat)[0]);
      ReadAsUnique(pat[|Written(tokens[0])|..], tokens[1..]);
      assert tokens == [tokens[0]] + tokens[1..] && Tokens(pat) == [Tokens(pat)[0]] + Tokens(pat)[1..];
    }
  }

  lemma SameFirstToken(pat: string, x: Token, y: Token)
    requires Written(x) <= pat && Written(y) <= pat && TokenOk(x, pat) && TokenOk(y, pat)
    ensures x == y
  {
    assert pat[0] == Written(x)[0] && pat[0] == Written(y)[0];
    if x.Class? && y.Class? {
      SameBody(pat, x.body, y.body);
      SameBody(pat, y.body, x.body);
    }
  }

  lemma SameBody(pat: string, x: string, y: string)
    requires ProperBody(x) && ProperBody(y) && "[" + x + "]" <= pat && "[" + y + "]" <= pat
    ensures |x| >= |y| && (|x| == |y| ==> x == y)
  {
    var wx, wy := "[" + x + "]", "[" + y + "]";
    assert forall m | 0 <= m < |wx| :: pat[m] == wx[m];
    assert forall m | 0 <= m < |wy| :: pat[m] == wy[m];
    assert forall m | 0 <= m < |x| && m < |y| :: x[m] == wx[m + 1] == wy[m + 1] == y[m];
    assert forall m | 0 <= m < |y| :: y[m] == wy[m + 1];
    assert wx[|x| + 1] == ']' && pat[|x| + 1] == ']';
    if |x| < |y| { NoBracketInside(y, |x|); }
  }

  lemma NoBracketInside(body: string, m: int)
    requires ProperBody(body) && 1 <= m < |body| && (body[0] == '!' ==> m >= 2)
    ensures body[m] != ']'
  {
    var skip := if body[0] == '!' then 1 else 0;
    var rest := if body[0] == '!' then body[1..] else body;
    assert rest[1..][m - skip - 1] == body[m];
  }

  // ---------- what a pattern matches

  ghost predicate Stands(piece: string, token: Token)
  {
    match token
    case AnyText => true
    case AnyChar => |piece| == 1
    case Class(body) => |piece| == 1 && InClass(body, piece[0])
    case Literal(c) => piece == [c]
  }

  /** The text is these pieces, one for each token. */
  ghost predicate Composed(text: string, tokens: seq<Token>, pieces: seq<string>)
  {
    && |pieces| == |tokens| && text == Concat(pieces)
    && forall i | 0 <= i < |pieces| :: Stands(pieces[i], tokens[i])
  }

  lemma ComposedStep(text: string, tokens: seq<Token>, piece: string, pieces: seq<string>, token: Token)
    requires Composed(text, tokens, pieces) && Stands(piece, token)
    ensures Composed(piece + text, [token] + tokens, [piece] + pieces)
  {
    assert ([piece] + pieces)[1..] == pieces;
  }

  lemma ComposedRest(text: string, tokens: seq<Token>, pieces: seq<string>)
    requires Composed(text, tokens, pieces) && tokens != []
    ensures |pieces| == |tokens| && text == pieces[0] + Concat(pieces[1..]) && Stands(pieces[0], tokens[0])
    ensures Composed(Concat(pieces[1..]), tokens[1..], pieces[1..])
  {
  }

  /** Any text can take one more character in front. */
  lemma TakeMore(text: string, tokens: seq<Token>, pieces: seq<string>) returns (more: seq<string>)
    requires text != "" && tokens != [] && tokens[0] == AnyText && Composed(text[1..], tokens, pieces)
    ensures Composed(text, tokens, more)
  {
    ComposedRest(text[1..], tokens, pieces);
    var first := [text[0]] + pieces[0];
    more := [first] + pieces[1..];
    ComposedStep(Concat(pieces[1..]), tokens[1..], first, pieces[1..], AnyText);
    assert first + Concat(pieces[1..]) == [text[0]] + text[1..] == text;
    assert [tokens[0]] + tokens[1..] == tokens;
  }

  /** The number of characters the first token is written with. */
  function Width(pat: string): nat
    requires pat != ""
  {
    if pat[0] == '[' && ClassClose(pat) < |pat| then ClassClose(pat) + 1 else 1
  }

  lemma TokensStep(pat: string)
    requires pat != ""
    ensures 1 <= Width(pat) <= |pat| && Tokens(pat) != []
    ensures Tokens(pat) == [Tokens(pat)[0]] + Tokens(pat[Width(pat)..])
    ensures pat[0] == '*' <==> Tokens(pat)[0] == AnyText
  {
  }

  lemma {:induction false} MatchCuts(text: string, pat: string) returns (pieces: seq<string>)
    requires FnMatch(text, pat)
    ensures Composed(text, Tokens(pat), pieces)
    decreases |text| + |pat|
  {
    hide InClass, ClassClose, Composed, Stands, Tokens;
    if pat == "" {
      pieces := [];
      NoTokens();
      NothingComposed();
    } else {
      TokensStep(pat);
      var rest, later := pat[Width(pat)..], [];
      if pat[0] == '*' && !FnMatch(text, rest) {
        later := MatchCuts(text[1..], pat);
        pieces := TakeMore(text, Tokens(pat), later);
      } else {
        var first := if pat[0] == '*' then "" else [text[0]];
        if pat[0] == '*' { AnyStands(first); } else { OneStands(text, pat); }
        later := MatchCuts(text[|first|..], rest);
        pieces := [first] + later;
        ComposedStep(text[|first|..], Tokens(rest), first, later, Tokens(pat)[0]);
        assert text == first + text[|first|..];
      }
    }
  }

  lemma NothingComposed()
    ensures Composed("", [], [])
  {
  }

  lemma AnyStands(piece: string)
    ensures Stands(piece, AnyText)
  {
  }

  lemma OneStands(text: string, pat: string)
    requires pat != "" && pat[0] != '*' && FnMatch(text, pat)
    ensures Stands([text[0]], Tokens(pat)[0])
  {
    hide InClass, ClassClose;
  }

  lemma {:induction false} CutsMatch(text: string, pat: string, pieces: seq<string>)
    requires Composed(text, Tokens(pat), pieces)
    ensures FnMatch(text, pat)
    decreases |text| + |pat|
  {
    hide InClass, ClassClose, Composed;
    if pat == "" {
      OnlyNothing(text, pieces);
    } else {
      ComposedRest(text, Tokens(pat), pieces);
      var first, rest := pieces[0], Concat(pieces[1..]);
      var width := if pat[0] == '[' && ClassClose(pat) < |pat| then ClassClose(pat) + 1 else 1;
      assert Tokens(pat)[1..] == Tokens(pat[width..]);
      if pat[0] == '*' && first != "" {
        var shorter := [first[1..]] + pieces[1..];
        AnyStands(first[1..]);
        ComposedStep(rest, Tokens(pat[1..]), first[1..], pieces[1..], AnyText);
        assert text[1..] == first[1..] + rest;
        CutsMatch(text[1..], pat, shorter);
      } else {
        assert pat[0] == '*' ==> "" + rest == rest == text;
        assert pat[0] != '*' ==> text[1..] == rest && text[0] == first[0];
        CutsMatch(rest, pat[width..], pieces[1..]);
      }
    }
  }

  lemma OnlyNothing(text: string, pieces: seq<string>)
    requires Composed(text, [], pieces)
    ensures text == ""
  {
  }

  /** `fnmatch`: the text can be cut into one piece for each token of the pattern, any
      text for `*`, one character for `?`, one of its characters for a class, and the
      character itself for any other. */
  lemma FnMatchIff(text: string, pat: string)
    ensures FnMatch(text, pat) <==> exists pieces :: Composed(text, Tokens(pat), pieces)
  {
    hide FnMatch, Composed, Tokens;
    if FnMatch(text, pat) { var pieces := MatchCuts(text, pat); }
    if pieces :| Composed(text, Tokens(pat), pieces) { CutsMatch(text, pat, pieces); }
  }

  // ---------- what an atom matches

  ghost predicate Spanned(stretch: seq<string>, pat: string)
  {
    if pat == "**" then true else |stretch| == 1 && FnMatch(stretch[0], pat)
  }

  ghost predicate Laid(path: seq<string>, pats: seq<string>, stretches: seq<seq<string>>)
  {
    && |stretches| == |pats| && path == Concat(stretches)
    && forall i | 0 <= i < |stretches| :: Spanned(stretches[i], pats[i])
  }

  ghost predicate CanBeLaid(path: seq<string>, pats: seq<string>)
  {
    exists stretches :: Laid(path, pats, stretches)
  }

  lemma LaidStep(path: seq<string>, pats: seq<string>, stretch: seq<string>, stretches: seq<seq<string>>, pat: string)
    requires Laid(path, pats, stretches) && Spanned(stretch, pat)
    ensures Laid(stretch + path, [pat] + pats, [stretch] + stretches)
  {
    assert ([stretch] + stretches)[1..] == stretches;
  }

  lemma {:induction false} PathLays(path: seq<string>, pats: seq<string>) returns (stretches: seq<seq<string>>)
    requires SegmentsMatch(path, pats)
    ensures Laid(path, pats, stretches)
    decreases |path| + |pats|
  {
    hide FnMatch;
    if pats == [] {
      stretches := [];
    } else if pats[0] == STARSTAR && SegmentsMatch(path, pats[1..]) {
      var rest := PathLays(path, pats[1..]);
      stretches := [[]] + rest;
      LaidStep(path, pats[1..], [], rest, pats[0]);
      assert [] + path == path && [pats[0]] + pats[1..] == pats;
    } else if pats[0] == STARSTAR {
      var rest := PathLays(path[1..], pats);
      var first := [path[0]] + rest[0];
      stretches := [first] + rest[1..];
      assert Laid(Concat(rest[1..]), pats[1..], rest[1..]);
      LaidStep(Concat(rest[1..]), pats[1..], first, rest[1..], pats[0]);
      assert first + Concat(rest[1..]) == [path[0]] + path[1..] == path && [pats[0]] + pats[1..] == pats;
    } else {
      var rest := PathLays(path[1..], pats[1..]);
      stretches := [[path[0]]] + rest;
      LaidStep(path[1..], pats[1..], [path[0]], rest, pats[0]);
      assert [path[0]] + path[1..] == path && [pats[0]] + pats[1..] == pats;
    }
  }

  lemma {:induction false} LaidMatches(path: seq<string>, pats: seq<string>, stretches: seq<seq<string>>)
    requires Laid(path, pats, stretches)
    ensures SegmentsMatch(path, pats)
    decreases |path| + |pats|
  {
    hide FnMatch;
    if pats != [] {
      var first, rest := stretches[0], Concat(stretches[1..]);
      assert Laid(rest, pats[1..], stretches[1..]);
      if pats[0] == STARSTAR && first != [] {
        LaidStep(rest, pats[1..], first[1..], stretches[1..], pats[0]);
        assert path[1..] == first[1..] + rest && [pats[0]] + pats[1..] == pats;
        LaidMatches(path[1..], pats, [first[1..]] + stretches[1..]);
      } else {
        assert first == [] ==> path == rest;
        assert first != [] && |first| == 1 ==> path[1..] == rest && path[0] == first[0];
        LaidMatches(rest, pats[1..], stretches[1..]);
      }
    }
  }

  /** A path matches an atom when its segments can be cut into one stretch for each
      segment of the atom, any number of them for `**` and one that it matches for any
      other. */
  lemma AtomMatchesIff(path: string, atom: string)
    ensures AtomMatches(path, atom) <==> CanBeLaid(Split(path), Split(atom))
  {
    var p, a := Split(path), Split(atom);
    if AtomMatches(path, atom) {
      var stretches := PathLays(p, a);
      assert CanBeLaid(p, a);
    } else if CanBeLaid(p, a) {
      var stretches :| Laid(p, a, stretches);
      LaidMatches(p, a, stretches);
    }
  }

  // ---------- what the overlap test decides

  datatype Slot = Open | Holds(pat: string)

  /** The slots can be filled by the patterns in order: one slot for each, and any number
      of open ones for `**`. */
  predicate Filled(slots: seq<Slot>, pats: seq<string>)
    decreases |slots| + |pats|
  {
    if pats == [] then slots == []
    else if pats[0] == "**" then Filled(slots, pats[1..]) || (slots != [] && slots[0] == Open && Filled(slots[1..], pats))
    else slots != [] && slots[0] == Holds(pats[0]) && Filled(slots[1..], pats[1..])
  }

  predicate PairOk(x: Slot, y: Slot)
  {
    x.Holds? && y.Holds? ==> SegmentOverlap(x.pat, y.pat)
  }

  /** Both lists of patterns fill the same slots, and where two patterns share one the
      segment test reports them. */
  ghost predicate Aligned(left: seq<string>, right: seq<string>, x: seq<Slot>, y: seq<Slot>)
  {
    && |x| == |y| && Filled(x, left) && Filled(y, right)
    && forall k | 0 <= k < |x| :: PairOk(x[k], y[k])
  }

  lemma {:induction false} OnlyStarsFillNothing(pats: seq<string>)
    ensures Filled([], pats) <==> AllStarStar(pats)
  {
    if pats != [] {
      OnlyStarsFillNothing(pats[1..]);
      assert pats == [pats[0]] + pats[1..];
    }
  }

  /** One more slot in front, taken by a pattern or left open by `**`. */
  lemma FillStep(slots: seq<Slot>, pats: seq<string>)
    requires pats != []
    ensures pats[0] != "**" && Filled(slots, pats[1..]) ==> Filled([Holds(pats[0])] + slots, pats)
    ensures pats[0] == "**" && Filled(slots, pats[1..]) ==> Filled(slots, pats)
    ensures pats[0] == "**" && Filled(slots, pats) ==> Filled([Open] + slots, pats)
  {
    assert ([Holds(pats[0])] + slots)[1..] == slots && ([Open] + slots)[1..] == slots;
  }

  lemma {:induction false} OverlapAligns(left: seq<string>, right: seq<string>, i: nat, j: nat)
    returns (x: seq<Slot>, y: seq<Slot>)
    requires i <= |left| && j <= |right| && Intersects(left, right, i, j)
    ensures Aligned(left[i..], right[j..], x, y)
    decreases |left| - i + |right| - j
  {
    hide SegmentOverlap;
    x, y := [], [];
    if i == |left| || j == |right| {
      OnlyStarsFillNothing(left[i..]);
      OnlyStarsFillNothing(right[j..]);
    } else {
      var l, r := left[i..], right[j..];
      assert l[1..] == left[i + 1..] && r[1..] == right[j + 1..];
      if left[i] == STARSTAR && Intersects(left, right, i + 1, j) {
        x, y := OverlapAligns(left, right, i + 1, j);
        FillStep(x, l);
      } else if right[j] == STARSTAR && Intersects(left, right, i, j + 1) {
        x, y := OverlapAligns(left, right, i, j + 1);
        FillStep(y, r);
      } else if left[i] == STARSTAR {
        x, y := OverlapAligns(left, right, i, j + 1);
        FillStep(x, l);
        FillStep(y, r);
        x, y := [Open] + x, [Holds(right[j])] + y;
      } else if right[j] == STARSTAR {
        x, y := OverlapAligns(left, right, i + 1, j);
        FillStep(x, l);
        FillStep(y, r);
        x, y := [Holds(left[i])] + x, [Open] + y;
      } else {
        x, y := OverlapAligns(left, right, i + 1, j + 1);
        FillStep(x, l);
        FillStep(y, r);
        x, y := [Holds(left[i])] + x, [Holds(right[j])] + y;
      }
    }
  }

  lemma AlignedRest(left: seq<string>, right: seq<string>, x: seq<Slot>, y: seq<Slot>, l: seq<string>, r: seq<string>)
    requires Aligned(left, right, x, y) && x != [] && Filled(x[1..], l) && Filled(y[1..], r)
    ensures Aligned(l, r, x[1..], y[1..]) && PairOk(x[0], y[0])
  {
  }

  lemma {:induction false} AlignsOverlap(left: seq<string>, right: seq<string>, i: nat, j: nat, x: seq<Slot>, y: seq<Slot>)
    requires i <= |left| && j <= |right| && Aligned(left[i..], right[j..], x, y)
    ensures Intersects(left, right, i, j)
    decreases |x| + |left| - i + |right| - j
  {
    hide SegmentOverlap;
    if i == |left| || j == |right| {
      OnlyStarsFillNothing(left[i..]);
      OnlyStarsFillNothing(right[j..]);
    } else {
      var l, r := left[i..], right[j..];
      assert l[1..] == left[i + 1..] && r[1..] == right[j + 1..];
      if left[i] == STARSTAR && Filled(x, l[1..]) {
        AlignsOverlap(left, right, i + 1, j, x, y);
      } else if right[j] == STARSTAR && Filled(y, r[1..]) {
        AlignsOverlap(left, right, i, j + 1, x, y);
      } else {
        AlignedRest(l, r, x, y, if left[i] == STARSTAR then l else l[1..], if right[j] == STARSTAR then r else r[1..]);
        var nextI := if left[i] == STARSTAR then i else i + 1;
        var nextJ := if right[j] == STARSTAR then j else j + 1;
        AlignsOverlap(left, right, nextI, nextJ, x[1..], y[1..]);
      }
    }
  }

  ghost predicate CanBeAligned(left: seq<string>, right: seq<string>)
  {
    exists x, y :: Aligned(left, right, x, y)
  }

  /** The overlap test reports two atoms exactly when their segments can be aligned, `**`
      standing for any number of places, so that the segment test reports every pair. */
  lemma AtomsOverlapIff(left: string, right: string)
    ensures AtomsOverlap(left, right) <==> CanBeAligned(Split(left), Split(right))
  {
    var l, r := Split(left), Split(right);
    assert l[0..] == l && r[0..] == r;
    if Intersects(l, r, 0, 0) {
      var x, y := OverlapAligns(l, r, 0, 0);
      assert CanBeAligned(l, r);
    } else if CanBeAligned(l, r) {
      var x, y :| Aligned(l, r, x, y);
      AlignsOverlap(l, r, 0, 0, x, y);
    }
  }
}
