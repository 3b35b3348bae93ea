/** Write-scope globs: Python's `fnmatch.fnmatchcase` on one path segment, the
    segment-wise meaning of an atom with recursive `**`, the overlap test of
    docs/plan/wp-check.py, and its carve-outs. */
module Glob {
  import opened Text

  // ---------- fnmatch on one segment

  predicate Special(c: char)
  {
    c == '*' || c == '?' || c == '['
  }

  predicate IsGlob(s: string)
  {
    '*' in s || '?' in s || '[' in s
  }

  function IndexFrom(s: string, k: nat, c: char): (i: nat)
    requires k <= |s|
    ensures k <= i <= |s| && (i < |s| ==> s[i] == c)
    decreases |s| - k
  {
    if k == |s| || s[k] == c then k else IndexFrom(s, k + 1, c)
  }

  lemma {:induction false} IndexIsFirst(s: string, k: nat, c: char)
    requires k <= |s|
    ensures forall m | k <= m < IndexFrom(s, k, c) :: s[m] != c
    decreases |s| - k
  {
    if k < |s| && s[k] != c { IndexIsFirst(s, k + 1, c); }
  }

  /** Position of the `]` that closes the class opened at `pat[0]`, or `|pat|`
      when there is none and the bracket is an ordinary character. A `]` right
      after `[` or `[!` belongs to the class. */
  function ClassClose(pat: string): (i: nat)
    requires pat != "" && pat[0] == '['
    ensures 1 <= i <= |pat| && (i < |pat| ==> pat[i] == ']')
  {
    var j := if 1 < |pat| && pat[1] == '!' then 2 else 1;
    IndexFrom(pat, if j < |pat| && pat[j] == ']' then j + 1 else j, ']')
  }

  /** Single characters and `a-z` ranges; a range whose ends are out of order is empty. */
  predicate InSet(body: string, c: char)
  {
    if |body| >= 3 && body[1] == '-' then body[0] <= c <= body[2] || InSet(body[3..], c)
    else body != "" && (body[0] == c || InSet(body[1..], c))
  }

  /** `fnmatch` drops empty ranges before it looks for the negation. */
  function DropEmptyRanges(body: string): string
  {
    if |body| >= 3 && body[1] == '-' && body[0] > body[2] then DropEmptyRanges(body[3..]) else body
  }

  predicate InClass(body: string, c: char)
  {
    var rest := DropEmptyRanges(body);
    if body != "" && body[0] == '!' then !InSet(body[1..], c)
    else if rest == "" || rest[0] != '!' then InSet(rest, c)
    else if |rest| >= 3 && rest[1] == '-' then
      // The `!` that has come to the front was the start of a range.
      !(c == '-' || c == rest[2] || InSet(rest[3..], c))
    else !InSet(rest[1..], c)
  }

  predicate FnMatch(text: string, pat: string)
    decreases |text| + |pat|
  {
    if pat == "" then text == ""
    else if pat[0] == '*' then FnMatch(text, pat[1..]) || (text != "" && FnMatch(text[1..], pat))
    else if text == "" then false
    else if pat[0] == '?' then FnMatch(text[1..], pat[1..])
    else if pat[0] == '[' && ClassClose(pat) < |pat| then
      InClass(pat[1..ClassClose(pat)], text[0]) && FnMatch(text[1..], pat[ClassClose(pat) + 1..])
    else pat[0] == text[0] && FnMatch(text[1..], pat[1..])
  }

  // ---------- the segment overlap test

  /** The literal text before the first special character. */
  function Head(pat: string): string
  {
    if pat == "" || Special(pat[0]) then "" else [pat[0]] + Head(pat[1..])
  }

  /** The text after the last special character. */
  function Tail(pat: string): string
  {
    if IsGlob(pat) then Tail(pat[1..]) else pat
  }

  predicate TailsAgree(left: string, right: string)
  {
    EndsWith(Tail(left), Tail(right)) || EndsWith(Tail(right), Tail(left))
  }

  predicate SegmentOverlap(left: string, right: string)
  {
    if !IsGlob(left) && !IsGlob(right) then left == right
    else if !IsGlob(left) then FnMatch(left, right)
    else if !IsGlob(right) then FnMatch(right, left)
    else if left == right then true
    else (Head(right) <= Head(left) || Head(left) <= Head(right)) && TailsAgree(left, right)
  }

  lemma {:induction false} LiteralMatch(text: string, pat: string)
    requires !IsGlob(pat)
    ensures FnMatch(text, pat) <==> text == pat
  {
    if pat != "" && text != "" {
      LiteralMatch(text[1..], pat[1..]);
      assert text == [text[0]] + text[1..] && pat == [pat[0]] + pat[1..];
    }
  }

  lemma {:induction false} HeadOfMatch(text: string, pat: string)
    requires FnMatch(text, pat)
    ensures Head(pat) <= text
  {
    if pat != "" && !Special(pat[0]) {
      HeadOfMatch(text[1..], pat[1..]);
      assert text == [text[0]] + text[1..];
    }
  }

  /** The text after the last special character is really literal: no character
      class reaches into it. */
  predicate PlainTail(pat: string)
  {
    if !IsGlob(pat) then true
    else if pat[0] == '[' && ClassClose(pat) < |pat| then
      IsGlob(pat[ClassClose(pat) + 1..]) && PlainTail(pat[ClassClose(pat) + 1..])
    else PlainTail(pat[1..])
  }

  lemma {:induction false} TailDrop(pat: string, k: nat)
    requires k <= |pat| && IsGlob(pat[k..])
    ensures IsGlob(pat) && Tail(pat[k..]) == Tail(pat)
  {
    if k > 0 {
      assert pat[1..][k - 1..] == pat[k..];
      TailDrop(pat[1..], k - 1);
    }
  }

  /** The head is the longest literal prefix. */
  lemma {:induction false} HeadIsLongest(pat: string)
    ensures Head(pat) <= pat && !IsGlob(Head(pat)) && (|Head(pat)| < |pat| ==> Special(pat[|Head(pat)|]))
  {
    if pat != "" && !Special(pat[0]) {
      HeadIsLongest(pat[1..]);
      assert pat == [pat[0]] + pat[1..];
    }
  }

  lemma {:induction false} HeadExtends(prefix: string, pat: string)
    requires !IsGlob(prefix)
    ensures prefix <= Head(prefix + pat)
  {
    if prefix != "" {
      assert (prefix + pat)[1..] == prefix[1..] + pat && prefix[0] in prefix;
      HeadExtends(prefix[1..], pat);
      assert prefix == [prefix[0]] + prefix[1..];
    }
  }

  /** Patterns that start with different texts, neither of which starts the other, are
      told apart, whatever follows. */
  lemma PrefixesApart(p: string, left: string, q: string, right: string)
    requires !IsGlob(p) && !IsGlob(q) && !(p <= q) && !(q <= p)
    ensures !SegmentOverlap(p + left, q + right)
  {
    var l, r := p + left, q + right;
    HeadExtends(p, left);
    HeadExtends(q, right);
    assert p <= l && q <= r;
    if SegmentOverlap(l, r) {
      if FnMatch(l, r) {
        HeadOfMatch(l, r);
        Comparable(p, q, l);
      } else if FnMatch(r, l) {
        HeadOfMatch(r, l);
        Comparable(p, q, r);
      } else if l == r {
        Comparable(p, q, l);
      } else {
        Comparable(p, q, if Head(r) <= Head(l) then Head(l) else Head(r));
      }
    }
  }

  lemma {:induction false} TailAfterSpecial(pat: string, suffix: string)
    requires pat != "" && Special(pat[|pat| - 1]) && !IsGlob(suffix)
    ensures IsGlob(pat + suffix) && Tail(pat + suffix) == suffix
  {
    var s := pat + suffix;
    assert s[|pat| - 1] == pat[|pat| - 1] && s[1..] == pat[1..] + suffix;
    if |pat| == 1 {
      assert s[1..] == suffix;
    } else {
      TailAfterSpecial(pat[1..], suffix);
    }
  }

  /** Different globs that end with different texts, neither of which ends the other, are
      told apart, whatever comes before. */
  lemma SuffixesApart(left: string, p: string, right: string, q: string)
    requires left != "" && Special(left[|left| - 1]) && right != "" && Special(right[|right| - 1])
    requires !IsGlob(p) && !IsGlob(q) && !EndsWith(p, q) && !EndsWith(q, p)
    ensures !SegmentOverlap(left + p, right + q)
  {
    TailAfterSpecial(left, p);
    TailAfterSpecial(right, q);
  }

  /** The text is the longest literal prefix of the pattern. */
  predicate LongestPrefix(p: string, pat: string)
  {
    p < pat && !IsGlob(p) && Special(pat[|p|])
  }

  /** The text is the longest literal suffix of the pattern. */
  predicate LongestSuffix(p: string, pat: string)
  {
    |p| < |pat| && pat[|pat| - |p|..] == p && !IsGlob(p) && Special(pat[|pat| - |p| - 1])
  }

  lemma NothingSpecial(s: string)
    requires !IsGlob(s)
    ensures forall i | 0 <= i < |s| :: !Special(s[i])
  {
  }

  lemma HeadIs(p: string, pat: string)
    requires LongestPrefix(p, pat)
    ensures Head(pat) == p
  {
    HeadIsLongest(pat);
    var h := Head(pat);
    NothingSpecial(p);
    NothingSpecial(h);
    assert h == pat[..|h|] && p == pat[..|p|];
    assert (forall i | 0 <= i < |h| :: h[i] == pat[i]) && forall i | 0 <= i < |p| :: p[i] == pat[i];
  }

  lemma TailIs(p: string, pat: string)
    requires LongestSuffix(p, pat)
    ensures Tail(pat) == p
  {
    var init := pat[..|pat| - |p|];
    assert pat == init + p;
    TailAfterSpecial(init, p);
  }

  /** Two different globs are reported exactly when of their longest literal prefixes one
      starts the other and of their longest literal suffixes one ends the other. */
  lemma GlobsOverlapIff(left: string, p: string, t: string, right: string, q: string, u: string)
    requires left != right && LongestPrefix(p, left) && LongestSuffix(t, left)
    requires LongestPrefix(q, right) && LongestSuffix(u, right)
    ensures SegmentOverlap(left, right) <==> (p <= q || q <= p) && (EndsWith(t, u) || EndsWith(u, t))
  {
    hide Head, Tail;
    HeadIs(p, left);
    HeadIs(q, right);
    TailIs(t, left);
    TailIs(u, right);
    assert left[|p|] in left && right[|q|] in right;
  }

  lemma Comparable(p: string, q: string, text: string)
    requires p <= text && q <= text
    ensures p <= q || q <= p
  {
    if |p| <= |q| {
      assert p == text[..|p|] && q == text[..|q|] && q[..|p|] == text[..|p|];
    } else {
      assert p == text[..|p|] && q == text[..|q|] && p[..|q|] == text[..|q|];
    }
  }

  lemma {:induction false} TailOfMatch(text: string, pat: string)
    requires FnMatch(text, pat) && PlainTail(pat)
    ensures EndsWith(text, Tail(pat))
    decreases |text| + |pat|
  {
    hide InClass, ClassClose;
    if !IsGlob(pat) {
      LiteralMatch(text, pat);
    } else if pat[0] == '*' && !FnMatch(text, pat[1..]) {
      TailOfMatch(text[1..], pat);
    } else if pat[0] == '[' && ClassClose(pat) < |pat| {
      TailDrop(pat, ClassClose(pat) + 1);
      TailOfMatch(text[1..], pat[ClassClose(pat) + 1..]);
    } else if pat[0] == '*' {
      TailOfMatch(text, pat[1..]);
    } else {
      TailOfMatch(text[1..], pat[1..]);
    }
  }

  /** The test reaches the tail comparison and it tells the two patterns apart. */
  predicate Separated(left: string, right: string)
  {
    IsGlob(left) && IsGlob(right) && left != right && !TailsAgree(left, right)
  }

  /** Two segment patterns with a common text are reported as overlapping exactly
      when the tail comparison does not separate them, and it never separates
      plain tails. */
  lemma SegmentOverlapOfCommonText(text: string, left: string, right: string)
    requires FnMatch(text, left) && FnMatch(text, right)
    ensures SegmentOverlap(left, right) <==> !Separated(left, right)
    ensures PlainTail(left) && PlainTail(right) ==> SegmentOverlap(left, right)
  {
    if !IsGlob(left) { LiteralMatch(text, left); }
    if !IsGlob(right) { LiteralMatch(text, right); }
    HeadOfMatch(text, left);
    HeadOfMatch(text, right);
    if PlainTail(left) && PlainTail(right) {
      TailOfMatch(text, left);
      TailOfMatch(text, right);
    }
  }

  /** Against a segment without special characters the test is `fnmatch` itself. */
  lemma SegmentOverlapOfLiteral(left: string, right: string)
    requires !IsGlob(right)
    ensures SegmentOverlap(left, right) <==> FnMatch(right, left)
    ensures SegmentOverlap(right, left) <==> FnMatch(right, left)
  {
  }

  // ---------- whole atoms

  const STARSTAR: string := "**"

  /** What a path means for an atom: `**` stands for any number of segments,
      every other segment pattern for one segment it matches. */
  predicate SegmentsMatch(path: seq<string>, pats: seq<string>)
    decreases |path| + |pats|
  {
    if pats == [] then path == []
    else if pats[0] == STARSTAR then
      SegmentsMatch(path, pats[1..]) || (path != [] && SegmentsMatch(path[1..], pats))
    else path != [] && FnMatch(path[0], pats[0]) && SegmentsMatch(path[1..], pats[1..])
  }

  predicate AtomMatches(path: string, atom: string)
  {
    SegmentsMatch(Split(path), Split(atom))
  }

  predicate AllStarStar(pats: seq<string>)
  {
    forall k | 0 <= k < |pats| :: pats[k] == STARSTAR
  }

  /** `intersects(i, j)` without its memo. */
  predicate Intersects(left: seq<string>, right: seq<string>, i: nat, j: nat)
    requires i <= |left| && j <= |right|
    decreases |left| - i + |right| - j
  {
    if i == |left| && j == |right| then true
    else if i == |left| then AllStarStar(right[j..])
    else if j == |right| then AllStarStar(left[i..])
    else if left[i] == STARSTAR then
      Intersects(left, right, i + 1, j) || Intersects(left, right, i, j + 1)
    else if right[j] == STARSTAR then
      Intersects(left, right, i, j + 1) || Intersects(left, right, i + 1, j)
    else SegmentOverlap(left[i], right[j]) && Intersects(left, right, i + 1, j + 1)
  }

  predicate AtomsOverlap(left: string, right: string)
  {
    Intersects(Split(left), Split(right), 0, 0)
  }

  /** The tail comparison is not fooled by these two: either it looks at literal
      text only, or it does not separate them. */
  predicate TailsTell(left: string, right: string)
  {
    (PlainTail(left) && PlainTail(right)) || !Separated(left, right)
  }

  /** Segment `k` of the path matches a pattern of each side, and the tail comparison
      separates the two. */
  predicate SeparatedOn(path: seq<string>, left: seq<string>, right: seq<string>, k: int, i: int, j: int)
  {
    && 0 <= k < |path| && 0 <= i < |left| && 0 <= j < |right|
    && FnMatch(path[k], left[i]) && FnMatch(path[k], right[j]) && Separated(left[i], right[j])
  }

  ghost predicate SegmentsMeet(path: seq<string>, left: seq<string>, right: seq<string>)
  {
    forall k, i, j :: !SeparatedOn(path, left, right, k, i, j)
  }

  /** No segment of the path makes the tail comparison separate what it has in common. */
  ghost predicate MeetOn(path: string, left: string, right: string)
  {
    SegmentsMeet(Split(path), Split(left), Split(right))
  }

  predicate AtomsTell(left: string, right: string)
  {
    forall l, r | l in Split(left) && r in Split(right) :: TailsTell(l, r)
  }

  /** A condition on the atoms alone under which they meet on every path. */
  lemma TellingAtomsMeet(path: string, left: string, right: string)
    requires AtomsTell(left, right)
    ensures MeetOn(path, left, right)
  {
    hide FnMatch, Split, PlainTail, Separated;
    var p, l, r := Split(path), Split(left), Split(right);
    forall k, i, j ensures !SeparatedOn(p, l, r, k, i, j) {
      if SeparatedOn(p, l, r, k, i, j) {
        assert TailsTell(l[i], r[j]);
        SegmentOverlapOfCommonText(p[k], l[i], r[j]);
      }
    }
  }

  lemma {:induction false} EmptyPathMatch(pats: seq<string>)
    ensures SegmentsMatch([], pats) <==> AllStarStar(pats)
  {
    if pats != [] {
      EmptyPathMatch(pats[1..]);
      assert pats == [pats[0]] + pats[1..];
    }
  }

  lemma {:induction false} IntersectsConservative(path: seq<string>, left: seq<string>, right: seq<string>,
                                                  k: nat, i: nat, j: nat)
    requires k <= |path| && i <= |left| && j <= |right| && SegmentsMeet(path, left, right)
    requires SegmentsMatch(path[k..], left[i..]) && SegmentsMatch(path[k..], right[j..])
    ensures Intersects(left, right, i, j)
    decreases |path| - k + |left| - i + |right| - j
  {
    hide FnMatch, Separated, SegmentOverlap;
    if i == |left| || j == |right| {
      EmptyPathMatch(left[i..]);
      EmptyPathMatch(right[j..]);
    } else {
      assert left[i..][1..] == left[i + 1..] && right[j..][1..] == right[j + 1..];
      assert k < |path| ==> path[k..][1..] == path[k + 1..];
      if left[i] == STARSTAR && SegmentsMatch(path[k..], left[i + 1..]) {
        IntersectsConservative(path, left, right, k, i + 1, j);
      } else if right[j] == STARSTAR && SegmentsMatch(path[k..], right[j + 1..]) {
        IntersectsConservative(path, left, right, k, i, j + 1);
      } else if left[i] == STARSTAR && right[j] == STARSTAR {
        IntersectsConservative(path, left, right, k + 1, i, j);
      } else if left[i] == STARSTAR {
        IntersectsConservative(path, left, right, k + 1, i, j + 1);
      } else if right[j] == STARSTAR {
        IntersectsConservative(path, left, right, k + 1, i + 1, j);
      } else {
        SegmentOverlapOfCommonText(path[k], left[i], right[j]);
        assert !SeparatedOn(path, left, right, k, i, j);
        IntersectsConservative(path, left, right, k + 1, i + 1, j + 1);
      }
    }
  }

  /** The overlap test never misses a shared path on which the atoms meet: a path it
      misses has a segment matched by two patterns that the tails separate. */
  lemma OverlapConservative(path: string, left: string, right: string)
    requires AtomMatches(path, left) && AtomMatches(path, right)
    ensures MeetOn(path, left, right) ==> AtomsOverlap(left, right)
  {
    var p, l, r := Split(path), Split(left), Split(right);
    assert p[0..] == p && l[0..] == l && r[0..] == r;
    if MeetOn(path, left, right) { IntersectsConservative(p, l, r, 0, 0, 0); }
  }

  predicate FixedDepth(pats: seq<string>)
  {
    STARSTAR !in pats
  }

  /** No two segments at the same depth are separated. */
  predicate NowhereSeparated(left: seq<string>, right: seq<string>)
    requires |left| == |right|
  {
    forall k | 0 <= k < |left| :: !Separated(left[k], right[k])
  }

  lemma {:induction false} FixedDepthMatch(path: seq<string>, pats: seq<string>)
    requires FixedDepth(pats)
    ensures SegmentsMatch(path, pats) <==> |path| == |pats| && forall k | 0 <= k < |pats| :: FnMatch(path[k], pats[k])
  {
    if pats != [] && path != [] {
      FixedDepthMatch(path[1..], pats[1..]);
      assert pats == [pats[0]] + pats[1..] && path == [path[0]] + path[1..];
    }
  }

  lemma {:induction false} IntersectsFixedDepth(path: seq<string>, left: seq<string>, right: seq<string>, i: nat)
    requires FixedDepth(left) && FixedDepth(right) && |path| == |left| == |right| && i <= |left|
    requires forall k | 0 <= k < |left| :: FnMatch(path[k], left[k]) && FnMatch(path[k], right[k])
    ensures Intersects(left, right, i, i) <==> forall k | i <= k < |left| :: !Separated(left[k], right[k])
    decreases |left| - i
  {
    hide FnMatch, Separated, SegmentOverlap;
    if i < |left| {
      IntersectsFixedDepth(path, left, right, i + 1);
      SegmentOverlapOfCommonText(path[i], left[i], right[i]);
    }
  }

  /** Exactly when a shared path is missed, for atoms without `**`: some depth has
      two globs whose tails the test takes for different. */
  lemma OverlapIffNowhereSeparated(path: string, left: string, right: string)
    requires FixedDepth(Split(left)) && FixedDepth(Split(right))
    requires AtomMatches(path, left) && AtomMatches(path, right)
    ensures |Split(left)| == |Split(right)|
    ensures AtomsOverlap(left, right) <==> NowhereSeparated(Split(left), Split(right))
  {
    hide FnMatch, Separated;
    FixedDepthMatch(Split(path), Split(left));
    FixedDepthMatch(Split(path), Split(right));
    IntersectsFixedDepth(Split(path), Split(left), Split(right), 0);
  }

  lemma SingleSegment(path: string, atom: string)
    requires '/' !in path && '/' !in atom && atom != STARSTAR
    ensures AtomMatches(path, atom) <==> FnMatch(path, atom)
  {
    SplitOfOnePart(path);
    SplitOfOnePart(atom);
    assert SegmentsMatch([], []);
  }

  /** A class at the end of a segment defeats it: both atoms accept "ab", and the
      test compares the literal tails "b]" and "b". */
  lemma OverlapMissesTrailingClass()
    ensures AtomMatches("ab", "a[b]") && AtomMatches("ab", "*b")
    ensures !AtomsOverlap("a[b]", "*b")
    ensures !MeetOn("ab", "a[b]", "*b")
  {
    SingleSegment("ab", "a[b]");
    SingleSegment("ab", "*b");
    assert FnMatch("ab", "a[b]") by {
      assert "[b]"[3..] == "" && "[b]"[1..2] == "b" && FnMatch("b", "[b]");
      assert "ab"[1..] == "b" && "a[b]"[1..] == "[b]";
    }
    assert FnMatch("ab", "*b") by {
      assert FnMatch("b", "b") && "*b"[1..] == "b" && "ab"[1..] == "b";
      assert FnMatch("b", "*b");
    }
    SplitOfOnePart("a[b]");
    SplitOfOnePart("*b");
    TailsOfCounterexample();
    OverlapConservative("ab", "a[b]", "*b");
  }

  lemma TailsOfCounterexample()
    ensures !SegmentOverlap("a[b]", "*b")
  {
    hide Head;
    assert "*b"[1..] == "b" && "*b"[0] == '*';
    assert Tail("*b") == "b";
    assert "a[b]"[1..] == "[b]" && "[b]"[1..] == "b]" && "a[b]"[1] == '[' && "[b]"[0] == '[';
    assert Tail("b]") == "b]";
    assert Tail("[b]") == "b]";
    assert Tail("a[b]") == "b]" && "b]"[1] == ']';
    assert !EndsWith("b]", "b") && !EndsWith("b", "b]");
  }

  /** Neither side of the test is special. */
  lemma {:induction false} IntersectsSymmetric(left: seq<string>, right: seq<string>, i: nat, j: nat)
    requires i <= |left| && j <= |right|
    ensures Intersects(left, right, i, j) <==> Intersects(right, left, j, i)
    decreases |left| - i + |right| - j
  {
    if i < |left| && j < |right| {
      IntersectsSymmetric(left, right, i + 1, j);
      IntersectsSymmetric(left, right, i, j + 1);
      IntersectsSymmetric(left, right, i + 1, j + 1);
      SegmentOverlapSymmetric(left[i], right[j]);
    }
  }

  lemma SegmentOverlapSymmetric(left: string, right: string)
    ensures SegmentOverlap(left, right) <==> SegmentOverlap(right, left)
  {
  }

  predicate LiteralParts(parts: seq<string>)
  {
    forall k | 0 <= k < |parts| :: !IsGlob(parts[k])
  }

  lemma LiteralSplit(s: string)
    requires !IsGlob(s)
    ensures LiteralParts(Split(s))
  {
  }

  lemma {:induction false} IntersectsExact(left: seq<string>, right: seq<string>, i: nat, j: nat)
    requires i <= |left| && j <= |right| && LiteralParts(right)
    ensures Intersects(left, right, i, j) <==> SegmentsMatch(right[j..], left[i..])
    ensures Intersects(right, left, j, i) <==> SegmentsMatch(right[j..], left[i..])
    decreases |left| - i + |right| - j
  {
    if j == |right| {
      EmptyPathMatch(left[i..]);
    } else if i == |left| {
      assert right[j..][0] == right[j] && STARSTAR[0] == '*';
    } else {
      assert left[i..][1..] == left[i + 1..] && right[j..][1..] == right[j + 1..];
      if left[i] == STARSTAR {
        IntersectsExact(left, right, i + 1, j);
        IntersectsExact(left, right, i, j + 1);
      } else {
        SegmentOverlapOfLiteral(left[i], right[j]);
        IntersectsExact(left, right, i + 1, j + 1);
      }
    }
  }

  /** Against an exact path the overlap test is exact, on either side and for
      every atom, character classes included. */
  lemma OverlapExactOnPaths(atom: string, path: string)
    requires !IsGlob(path)
    ensures AtomsOverlap(atom, path) <==> AtomMatches(path, atom)
    ensures AtomsOverlap(path, atom) <==> AtomMatches(path, atom)
  {
    LiteralSplit(path);
    var a, p := Split(atom), Split(path);
    assert a[0..] == a && p[0..] == p;
    IntersectsExact(a, p, 0, 0);
  }

  // ---------- carve-outs

  /** The text before the first of `*`, `?`, `[` and `{`. */
  function Root(s: string): (r: string)
    ensures r <= s && !IsGlob(r)
  {
    if s == "" || Special(s[0]) || s[0] == '{' then "" else [s[0]] + Root(s[1..])
  }

  predicate Covers(cover: string, candidate: string)
  {
    if !IsGlob(candidate) then
      if IsGlob(cover) then AtomsOverlap(cover, candidate) else candidate == cover
    else if !IsGlob(cover) then false
    else if cover == candidate then true
    else EndsWith(cover, "/**") && cover[..|cover| - 2] <= Root(candidate)
  }

  lemma {:induction false} LiteralPrefixMatch(path: seq<string>, lits: seq<string>, pats: seq<string>)
    requires LiteralParts(lits)
    ensures SegmentsMatch(path, lits + pats) <==> lits <= path && SegmentsMatch(path[|lits|..], pats)
  {
    if lits == [] {
      assert lits + pats == pats && path[0..] == path;
    } else {
      assert STARSTAR[0] == '*' && (lits + pats)[1..] == lits[1..] + pats;
      if path != [] {
        LiteralPrefixMatch(path[1..], lits[1..], pats);
        LiteralMatch(path[0], lits[0]);
        assert path == [path[0]] + path[1..] && lits == [lits[0]] + lits[1..];
        assert |lits| <= |path| ==> path[1..][|lits| - 1..] == path[|lits|..];
      }
    }
  }

  lemma {:induction false} StarStarMatchesAll(path: seq<string>)
    ensures SegmentsMatch(path, [STARSTAR])
  {
    if path == [] { EmptyPathMatch([STARSTAR]); } else { StarStarMatchesAll(path[1..]); }
  }

  /** A directory followed by a recursive wildcard accepts everything below it. */
  lemma DirectoryCovers(dir: string, rest: string, path: string)
    requires !IsGlob(dir) && AtomMatches(path, dir + "/" + rest)
    ensures AtomMatches(path, dir + "/" + STARSTAR)
  {
    var d, p := Split(dir), Split(path);
    LiteralSplit(dir);
    SplitConcat(dir, rest);
    SplitConcat(dir, STARSTAR);
    SplitOfOnePart(STARSTAR);
    LiteralPrefixMatch(p, d, Split(rest));
    LiteralPrefixMatch(p, d, [STARSTAR]);
    StarStarMatchesAll(p[|d|..]);
  }

  /** For an exact path, being covered is being matched. */
  lemma CoversExactOnPaths(cover: string, path: string)
    requires !IsGlob(path)
    ensures Covers(cover, path) <==> AtomMatches(path, cover)
  {
    OverlapExactOnPaths(cover, path);
    if !IsGlob(cover) { OnlyItself(path, cover); }
  }

  /** An atom without special characters accepts itself and nothing else, up to
      equal segments. */
  lemma OnlyItself(path: string, atom: string)
    requires !IsGlob(atom)
    ensures AtomMatches(path, atom) <==> path == atom
  {
    LiteralSplit(atom);
    var p, a := Split(path), Split(atom);
    LiteralPrefixMatch(p, a, []);
    assert a + [] == a;
    if p == a { SplitInjective(path, atom); }
  }

  /** Cover and candidate of the directory case start with the same literal directory. */
  lemma DirectoryForm(cover: string, candidate: string) returns (dir: string, rest: string)
    requires EndsWith(cover, "/**") && cover[..|cover| - 2] <= Root(candidate)
    ensures cover == dir + "/" + STARSTAR && candidate == dir + "/" + rest && !IsGlob(dir)
  {
    hide Root;
    var n := |cover|;
    dir, rest := cover[..n - 3], candidate[n - 2..];
    assert cover == cover[..n - 3] + cover[n - 3..] == dir + "/**";
    assert cover[..n - 2] == dir + "/";
    assert dir <= Root(candidate);
    assert candidate == candidate[..n - 2] + rest && candidate[..n - 2] == Root(candidate)[..n - 2];
  }

  /** No special character and no brace. */
  predicate PlainDirectory(dir: string)
  {
    !IsGlob(dir) && '{' !in dir
  }

  lemma {:induction false} RootExtends(dir: string, rest: string)
    requires PlainDirectory(dir)
    ensures dir <= Root(dir + rest)
  {
    if dir != "" {
      assert (dir + rest)[1..] == dir[1..] + rest && dir[0] in dir;
      RootExtends(dir[1..], rest);
      assert dir == [dir[0]] + dir[1..];
    }
  }

  lemma RootIsPlain(s: string)
    ensures PlainDirectory(Root(s))
  {
  }

  /** A glob is covered exactly by itself and by the directories it is written under,
      followed by a recursive wildcard. */
  lemma CoversGlobIff(cover: string, candidate: string)
    requires IsGlob(candidate)
    ensures Covers(cover, candidate) <==>
            cover == candidate || exists dir :: WrittenUnder(dir, cover, candidate)
  {
    hide Root, AtomsOverlap;
    if Covers(cover, candidate) && cover != candidate {
      var dir, rest := DirectoryForm(cover, candidate);
      RootIsPlain(candidate);
      assert cover[..|cover| - 2] == dir + "/" && forall c | c in dir :: c in dir + "/";
      assert forall c | c in dir + "/" :: c in Root(candidate);
      assert dir + "/" <= candidate;
      assert WrittenUnder(dir, cover, candidate);
    }
    if dir :| WrittenUnder(dir, cover, candidate) { UnderIsCovered(dir, cover, candidate); }
  }

  /** The cover is everything below a plain directory that the candidate starts with. */
  predicate WrittenUnder(dir: string, cover: string, candidate: string)
  {
    PlainDirectory(dir) && cover == dir + "/" + "**" && dir + "/" <= candidate
  }

  lemma UnderIsCovered(dir: string, cover: string, candidate: string)
    requires IsGlob(candidate) && WrittenUnder(dir, cover, candidate)
    ensures Covers(cover, candidate)
  {
    hide Root, AtomsOverlap;
    var rest := candidate[|dir| + 1..];
    assert candidate == dir + "/" + rest && PlainDirectory(dir + "/");
    RootExtends(dir + "/", rest);
    assert cover[..|cover| - 2] == dir + "/" && cover[|cover| - 3..] == "/**";
    assert cover[|cover| - 1] == '*';
  }

  /** A carve-out that covers an atom excludes every path of that atom. */
  lemma CoversSound(path: string, cover: string, candidate: string)
    requires Covers(cover, candidate) && AtomMatches(path, candidate)
    ensures AtomMatches(path, cover)
  {
    hide AtomMatches, AtomsOverlap, Root;
    if !IsGlob(candidate) {
      OnlyItself(path, candidate);
      CoversExactOnPaths(cover, candidate);
    } else if cover != candidate {
      var dir, rest := DirectoryForm(cover, candidate);
      DirectoryCovers(dir, rest, path);
    }
  }

  // ---------- scopes

  /** A package's declared write scope. */
  datatype Scope = Scope(atoms: seq<string>, exclusions: seq<string>)

  /** The package may write this path: some atom has it and no carve-out does. */
  predicate Writes(scope: Scope, path: string)
  {
    (exists a | a in scope.atoms :: AtomMatches(path, a))
    && forall x | x in scope.exclusions :: !AtomMatches(path, x)
  }

  /** Two atoms of the scopes have the path and meet on it. */
  ghost predicate ScopesMeetOn(left: Scope, right: Scope, path: string)
  {
    exists l, r :: l in left.atoms && r in right.atoms && AtomMatches(path, l) && AtomMatches(path, r) && MeetOn(path, l, r)
  }

  predicate ScopesTell(left: Scope, right: Scope)
  {
    forall l, r | l in left.atoms && r in right.atoms :: AtomsTell(l, r)
  }

  lemma TellingScopesMeet(left: Scope, right: Scope, path: string)
    requires ScopesTell(left, right) && Writes(left, path) && Writes(right, path)
    ensures ScopesMeetOn(left, right, path)
  {
    hide AtomMatches, MeetOn, AtomsTell;
    var l :| l in left.atoms && AtomMatches(path, l);
    var r :| r in right.atoms && AtomMatches(path, r);
    TellingAtomsMeet(path, l, r);
  }

  predicate Excluded(exclusions: seq<string>, atom: string)
  {
    exists x | x in exclusions :: Covers(x, atom)
  }

  predicate Clash(left: Scope, right: Scope, pair: (string, string))
  {
    && pair.0 in left.atoms && pair.1 in right.atoms
    && AtomsOverlap(pair.0, pair.1)
    && !Excluded(left.exclusions, pair.1)
    && !Excluded(right.exclusions, pair.0)
  }

  lemma ClashSymmetric(left: Scope, right: Scope, p: (string, string))
    ensures Clash(left, right, p) <==> Clash(right, left, (p.1, p.0))
  {
    IntersectsSymmetric(Split(p.0), Split(p.1), 0, 0);
  }

  /** The carve-outs of two scopes that both write a path cover no atom that has it. */
  lemma SharedPathNotExcluded(left: Scope, right: Scope, path: string, l: string, r: string)
    requires Writes(left, path) && Writes(right, path) && AtomMatches(path, l) && AtomMatches(path, r)
    ensures !Excluded(left.exclusions, r) && !Excluded(right.exclusions, l)
  {
    forall x | x in left.exclusions && Covers(x, r) ensures false { CoversSound(path, x, r); }
    forall x | x in right.exclusions && Covers(x, l) ensures false { CoversSound(path, x, l); }
  }

  /** A path two scopes can both write, and on which they meet, always shows up as a clash. */
  lemma SharedPathClashes(left: Scope, right: Scope, path: string)
    requires Writes(left, path) && Writes(right, path) && ScopesMeetOn(left, right, path)
    ensures exists p :: Clash(left, right, p)
  {
    hide MeetOn, AtomMatches, AtomsOverlap, Writes;
    var l, r :| l in left.atoms && r in right.atoms && AtomMatches(path, l) && AtomMatches(path, r) && MeetOn(path, l, r);
    OverlapConservative(path, l, r);
    SharedPathNotExcluded(left, right, path, l, r);
    assert Clash(left, right, (l, r));
  }

  /** Two atoms without `**` through which both scopes write a path are a clash
      exactly when the tail comparison separates them at no depth. */
  lemma ClashIffNowhereSeparated(left: Scope, right: Scope, path: string, l: string, r: string)
    requires Writes(left, path) && Writes(right, path)
    requires l in left.atoms && r in right.atoms && AtomMatches(path, l) && AtomMatches(path, r)
    requires FixedDepth(Split(l)) && FixedDepth(Split(r))
    ensures |Split(l)| == |Split(r)|
    ensures Clash(left, right, (l, r)) <==> NowhereSeparated(Split(l), Split(r))
  {
    hide Writes, AtomMatches, AtomsOverlap, NowhereSeparated;
    OverlapIffNowhereSeparated(path, l, r);
    SharedPathNotExcluded(left, right, path, l, r);
  }

  /** Between scopes that list exact files, whatever their carve-outs, a clash is
      a file both may write. */
  lemma ClashExactOnFiles(left: Scope, right: Scope)
    requires forall a | a in left.atoms + right.atoms :: !IsGlob(a)
    ensures (exists p :: Clash(left, right, p)) <==> (exists path :: Writes(left, path) && Writes(right, path))
  {
    if p :| Clash(left, right, p) {
      var path := p.0;
      OverlapExactOnPaths(p.0, p.1);
      OnlyItself(p.1, p.0);
      OnlyItself(p.0, p.0);
      forall x | x in left.exclusions + right.exclusions ensures Covers(x, path) <==> AtomMatches(path, x) {
        CoversExactOnPaths(x, path);
      }
      assert Writes(left, path) && Writes(right, path);
    }
    if path :| Writes(left, path) && Writes(right, path) {
      forall l, r | l in left.atoms && r in right.atoms ensures AtomsTell(l, r) { LiteralSplit(l); }
      TellingScopesMeet(left, right, path);
      SharedPathClashes(left, right, path);
    }
  }
}
