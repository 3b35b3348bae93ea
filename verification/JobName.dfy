/** `northflank_job_name`: from an arbitrary container name to a legal job name. */
module JobName {
  import opened Common

  const READABLE_BUDGET: nat := 52 - 3 - 1 - 16

  predicate Lower(c: char) { 'a' <= c <= 'z' }
  predicate Upper(c: char) { 'A' <= c <= 'Z' }
  predicate Digit(c: char) { '0' <= c <= '9' }
  predicate Alphanumeric(c: char) { Lower(c) || Upper(c) || Digit(c) }

  function ToLower(c: char): char
  {
    if Upper(c) then c - 'A' + 'a' else c
  }

  predicate LegalChar(c: char)
  {
    Lower(c) || Digit(c) || c == '-'
  }

  // ---------- the pieces of a name

  function HexDigit(n: int): (c: char)
    requires 0 <= n < 16
    ensures Lower(c) || Digit(c)
  {
    if n < 10 then '0' + n as char else 'a' + (n - 10) as char
  }

  function Hex(b: Byte): (s: string)
    ensures |s| == 2 && forall c | c in s :: Lower(c) || Digit(c)
  {
    [HexDigit(b / 16), HexDigit(b % 16)]
  }

  function HexAll(bytes: seq<Byte>): (s: string)
    ensures |s| == 2 * |bytes| && forall c | c in s :: Lower(c) || Digit(c)
  {
    if bytes == [] then "" else HexAll(bytes[..|bytes| - 1]) + Hex(bytes[|bytes| - 1])
  }

  function SlugChar(c: char): (d: char)
    ensures LegalChar(d)
  {
    if Alphanumeric(c) then ToLower(c) else '-'
  }

  function Slug(s: string): (t: string)
    ensures |t| == |s| && forall c | c in t :: LegalChar(c)
  {
    if s == "" then "" else Slug(s[..|s| - 1]) + [SlugChar(s[|s| - 1])]
  }

  predicate EndsInDash(s: string)
  {
    s != "" && s[|s| - 1] == '-'
  }

  predicate NoDoubleDash(s: string)
  {
    forall i | 0 < i < |s| :: !(s[i - 1] == '-' && s[i] == '-')
  }

  predicate AllLegal(s: string)
  {
    forall i | 0 <= i < |s| :: LegalChar(s[i])
  }

  /** One dash for each run of dashes. */
  function Collapse(s: string): (t: string)
    ensures NoDoubleDash(t) && (t == "" <==> s == "") && (EndsInDash(t) <==> EndsInDash(s))
    ensures AllLegal(s) ==> AllLegal(t)
  {
    if s == "" then ""
    else
      var init := s[..|s| - 1];
      if EndsInDash(s) && EndsInDash(init) then Collapse(init) else Collapse(init) + [s[|s| - 1]]
  }

  function TrimLeft(s: string): (t: string)
    ensures NoDoubleDash(s) ==> NoDoubleDash(t)
    ensures AllLegal(s) ==> AllLegal(t)
    ensures t != "" ==> t[0] != '-'
  {
    if s != "" && s[0] == '-' then TrimLeft(s[1..]) else s
  }

  function TrimRight(s: string): (t: string)
    ensures t <= s && !EndsInDash(t)
  {
    if EndsInDash(s) then TrimRight(s[..|s| - 1]) else s
  }

  function Trim(s: string): string
  {
    TrimRight(TrimLeft(s))
  }

  function Take(s: string): string
  {
    if |s| <= READABLE_BUDGET then s else s[..READABLE_BUDGET]
  }

  function Readable(specName: string): string
  {
    Trim(Take(Trim(Collapse(Slug(specName)))))
  }

  function NameFrom(readable: string, suffix: string): string
  {
    if readable == "" then "nf-" + suffix else "nf-" + readable + "-" + suffix
  }

  function NameOf(specName: string, digest: seq<Byte>): string
    requires |digest| == 32
  {
    NameFrom(Readable(specName), HexAll(digest[..8]))
  }

  // ---------- the loops

  /** `digest` is the SHA-256 of the full container name. */
  method DeriveJobName(specName: string, digest: seq<Byte>) returns (name: string)
    requires |digest| == 32
    ensures name == NameOf(specName, digest)
  {
    var head := digest[..8];
    var suffix := "";
    for i := 0 to 8
      invariant suffix == HexAll(head[..i])
    {
      assert head[..i + 1][..i] == head[..i];
      suffix := suffix + Hex(head[i]);
    }
    assert head[..8] == head;

    var slug := "";
    for i := 0 to |specName|
      invariant slug == Slug(specName[..i])
    {
      assert specName[..i + 1][..i] == specName[..i];
      var c := specName[i];
      slug := slug + [if Alphanumeric(c) then ToLower(c) else '-'];
    }
    assert specName[..|specName|] == specName;

    var collapsed := "";
    var prevDash := false;
    for i := 0 to |slug|
      invariant collapsed == Collapse(slug[..i]) && prevDash == EndsInDash(slug[..i])
    {
      assert slug[..i + 1][..i] == slug[..i];
      if slug[i] == '-' {
        if !prevDash { collapsed := collapsed + "-"; }
        prevDash := true;
      } else {
        collapsed := collapsed + [slug[i]];
        prevDash := false;
      }
    }
    assert slug[..|slug|] == slug;
    var readable := Trim(Take(Trim(collapsed)));
    name := if readable == "" then "nf-" + suffix else "nf-" + readable + "-" + suffix;
  }

  // ---------- what a name is

  /** The readable part is empty or a legal fragment between the two dashes. */
  predicate Fragment(s: string)
  {
    AllLegal(s) && NoDoubleDash(s) && |s| <= READABLE_BUDGET && !EndsInDash(s) && (s != "" ==> s[0] != '-')
  }

  lemma ReadableIsFragment(specName: string)
    ensures Fragment(Readable(specName))
  {
  }

  /** Every derived name is legal: 19 or 21 to 52 characters of [a-z0-9-], first a
      letter, never two dashes in a row, never a dash at the end. */
  lemma NameIsLegal(specName: string, digest: seq<Byte>)
    requires |digest| == 32
    ensures var name := NameOf(specName, digest);
      && (|name| == 19 || 21 <= |name| <= 52)
      && Lower(name[0]) && AllLegal(name) && NoDoubleDash(name) && !EndsInDash(name)
  {
    ReadableIsFragment(specName);
    var suffix := HexAll(digest[..8]);
    assert forall i | 0 <= i < |suffix| :: suffix[i] in suffix;
    FragmentNameIsLegal(Readable(specName), suffix);
  }

  predicate AllHex(s: string)
  {
    forall i | 0 <= i < |s| :: Lower(s[i]) || Digit(s[i])
  }

  lemma FragmentNameIsLegal(readable: string, suffix: string)
    requires Fragment(readable) && |suffix| == 16 && AllHex(suffix)
    ensures var name := NameFrom(readable, suffix);
      && (|name| == 19 || 21 <= |name| <= 52)
      && Lower(name[0]) && AllLegal(name) && NoDoubleDash(name) && !EndsInDash(name)
  {
    var name := NameFrom(readable, suffix);
    var n, m := |readable|, |name| - 16;
    assert name[m..] == suffix;
    assert forall i | m <= i < |name| :: name[i] == suffix[i - m];
    assert !EndsInDash(name);
    if readable != "" {
      assert forall i | 3 <= i < 3 + n :: name[i] == readable[i - 3];
      assert name[n + 2] == readable[n - 1] && name[3] == readable[0] && name[n + 3] == '-';
      forall i | 0 < i < |name| ensures !(name[i - 1] == '-' && name[i] == '-') {
        if 3 < i < 3 + n { assert name[i - 1] == readable[i - 4] && name[i] == readable[i - 3]; }
      }
    }
  }

  lemma HexInjective(a: Byte, b: Byte)
    requires Hex(a) == Hex(b)
    ensures a == b
  {
  }

  lemma {:induction false} HexAllInjective(a: seq<Byte>, b: seq<Byte>)
    requires |a| == |b| && HexAll(a) == HexAll(b)
    ensures a == b
  {
    if a != [] {
      var n := |a| - 1;
      var x, y := HexAll(a[..n]), HexAll(b[..n]);
      assert x == HexAll(a)[..2 * n] == HexAll(b)[..2 * n] == y;
      assert Hex(a[n]) == HexAll(a)[2 * n..] == HexAll(b)[2 * n..] == Hex(b[n]);
      HexInjective(a[n], b[n]);
      HexAllInjective(a[..n], b[..n]);
      assert a == a[..n] + [a[n]] && b == b[..n] + [b[n]];
    }
  }

  lemma NameFromInjective(ra: string, sa: string, rb: string, sb: string)
    requires |sa| == 16 && |sb| == 16 && NameFrom(ra, sa) == NameFrom(rb, sb)
    ensures ra == rb && sa == sb
  {
    var name := NameFrom(ra, sa);
    assert sa == name[|name| - 16..] == sb;
    if |name| > 19 {
      assert ra == name[3..|name| - 17] == rb;
    }
  }

  /** Two containers share a job name exactly when their readable parts agree and
      their hashes agree in the first 64 bits; so names are as distinct as that
      much of the hash, and no more. */
  lemma SameNameIff(a: string, da: seq<Byte>, b: string, db: seq<Byte>)
    requires |da| == 32 && |db| == 32
    ensures NameOf(a, da) == NameOf(b, db) <==> Readable(a) == Readable(b) && da[..8] == db[..8]
  {
    hide NameFrom, Readable, HexAll;
    if NameOf(a, da) == NameOf(b, db) {
      NameFromInjective(Readable(a), HexAll(da[..8]), Readable(b), HexAll(db[..8]));
      HexAllInjective(da[..8], db[..8]);
    }
  }

  // ---------- what a name shows

  lemma {:induction false} HexAllDigits(bytes: seq<Byte>, i: nat)
    requires i < |bytes|
    ensures HexAll(bytes)[2 * i] == "0123456789abcdef"[bytes[i] / 16]
    ensures HexAll(bytes)[2 * i + 1] == "0123456789abcdef"[bytes[i] % 16]
  {
    var n := |bytes| - 1;
    HexDigits(bytes[n]);
    if i < n {
      HexAllDigits(bytes[..n], i);
      assert bytes[..n][i] == bytes[i];
    }
  }

  lemma HexDigits(b: Byte)
    ensures Hex(b) == ["0123456789abcdef"[b / 16], "0123456789abcdef"[b % 16]]
  {
    HexDigitIs(b / 16);
    HexDigitIs(b % 16);
  }

  lemma HexDigitIs(n: int)
    requires 0 <= n < 16
    ensures HexDigit(n) == "0123456789abcdef"[n]
  {
    var digits := "0123456789abcdef";
    assert digits[0] == '0' && digits[1] == '1' && digits[2] == '2' && digits[3] == '3' && digits[4] == '4';
    assert digits[5] == '5' && digits[6] == '6' && digits[7] == '7' && digits[8] == '8' && digits[9] == '9';
    assert digits[10] == 'a' && digits[11] == 'b' && digits[12] == 'c' && digits[13] == 'd' && digits[14] == 'e';
    assert digits[15] == 'f';
  }

  /** A name is `nf-`, the readable part and a dash if there is one, and the first eight
      bytes of the hash in hexadecimal, high digit first. */
  lemma NameIs(specName: string, digest: seq<Byte>, i: nat)
    requires |digest| == 32 && i < 8
    ensures var name, readable := NameOf(specName, digest), Readable(specName);
      && |name| >= 19 && name[..|name| - 16] == "nf-" + (if readable == "" then "" else readable + "-")
      && name[|name| - 16 + 2 * i] == "0123456789abcdef"[digest[i] / 16]
      && name[|name| - 15 + 2 * i] == "0123456789abcdef"[digest[i] % 16]
  {
    hide Readable, HexAll;
    var name, suffix := NameOf(specName, digest), HexAll(digest[..8]);
    HexAllDigits(digest[..8], i);
    assert name[|name| - 16..] == suffix;
    assert name == name[..|name| - 16] + suffix;
    assert name[|name| - 16 + 2 * i] == suffix[2 * i] && name[|name| - 15 + 2 * i] == suffix[2 * i + 1];
  }

  /** The runs of letters and digits of a text, in lower case. */
  function Words(s: string): (words: seq<string>)
  {
    if s == "" then []
    else
      var init, c := s[..|s| - 1], s[|s| - 1];
      var words := Words(init);
      var low := if 'A' <= c <= 'Z' then (c as int + 32) as char else c;
      if !Alphanumeric(c) then words
      else if words != [] && init != "" && Alphanumeric(init[|init| - 1]) then
        words[..|words| - 1] + [words[|words| - 1] + [low]]
      else words + [[low]]
  }

  function Dashed(words: seq<string>): string
  {
    if words == [] then ""
    else if |words| == 1 then words[0]
    else Dashed(words[..|words| - 1]) + "-" + words[|words| - 1]
  }

  predicate EndsInWord(s: string)
  {
    s != "" && Alphanumeric(s[|s| - 1])
  }

  lemma TrimLeftLast(s: string, c: char)
    ensures TrimLeft(s + [c]) == if TrimLeft(s) != "" then TrimLeft(s) + [c] else if c == '-' then "" else [c]
    decreases s
  {
    if s == "" {
      assert s + [c] == [c] && [c][1..] == "";
    } else if s[0] == '-' {
      assert (s + [c])[1..] == s[1..] + [c];
      TrimLeftLast(s[1..], c);
    }
  }

  lemma WordsShape(s: string)
    ensures EndsInWord(s) ==> Words(s) != []
    ensures Words(s) != [] ==> Words(s)[|Words(s)| - 1] != "" && Dashed(Words(s)) != "" && !EndsInDash(Dashed(Words(s)))
  {
    if s != "" {
      WordsShape(s[..|s| - 1]);
    }
  }

  lemma DashedLonger(words: seq<string>, c: char)
    requires words != []
    ensures Dashed(words[..|words| - 1] + [words[|words| - 1] + [c]]) == Dashed(words) + [c]
  {
    var n := |words| - 1;
    var longer := words[..n] + [words[n] + [c]];
    assert longer[..n] == words[..n];
  }

  lemma DashedMore(words: seq<string>, word: string)
    requires words != []
    ensures Dashed(words + [word]) == Dashed(words) + "-" + word
  {
    assert (words + [word])[..|words|] == words;
  }

  /** The words with dashes between them, and one more where a word has ended. */
  function Shown(s: string): string
  {
    Dashed(Words(s)) + if Words(s) != [] && !EndsInWord(s) then "-" else ""
  }

  lemma SlugEnds(s: string)
    ensures EndsInDash(Slug(s)) <==> s != "" && !EndsInWord(s)
  {
  }

  lemma CollapseLast(init: string, c: char)
    ensures Collapse(Slug(init + [c])) ==
            if !Alphanumeric(c) && init != "" && !EndsInWord(init) then Collapse(Slug(init))
            else Collapse(Slug(init)) + [SlugChar(c)]
    ensures SlugChar(c) == '-' <==> !Alphanumeric(c)
  {
    var s := init + [c];
    assert s[..|s| - 1] == init;
    SlugEnds(init);
    SlugEnds(s);
    assert Slug(s)[..|s| - 1] == Slug(init) && Slug(s)[|s| - 1] == SlugChar(c);
  }

  lemma {:induction false} CollapsedIsShown(s: string)
    ensures TrimLeft(Collapse(Slug(s))) == Shown(s)
  {
    if s != "" {
      hide Words, Dashed, Shown, Alphanumeric, SlugChar, Collapse, Slug, TrimLeft, EndsInWord;
      var init, c := s[..|s| - 1], s[|s| - 1];
      assert s == init + [c];
      CollapsedIsShown(init);
      CollapseLast(init, c);
      TrimLeftLast(Collapse(Slug(init)), SlugChar(c));
      ShownStep(init, c);
      ShownEmpty(init);
    }
  }

  lemma ShownEmpty(s: string)
    ensures EndsInWord(s) ==> Shown(s) != ""
  {
    hide Words, Dashed, Alphanumeric;
    WordsShape(s);
  }

  lemma WordsLast(init: string, c: char)
    ensures !Alphanumeric(c) ==> Words(init + [c]) == Words(init)
    ensures EndsInWord(init) ==> Words(init) != []
    ensures Alphanumeric(c) && EndsInWord(init) ==>
              var n := |Words(init)| - 1; Words(init + [c]) == Words(init)[..n] + [Words(init)[n] + [SlugChar(c)]]
    ensures Alphanumeric(c) && !EndsInWord(init) ==> Words(init + [c]) == Words(init) + [[SlugChar(c)]]
  {
    assert (init + [c])[..|init|] == init;
    WordsShape(init);
  }

  lemma ShownStep(init: string, c: char)
    ensures !Alphanumeric(c) && init != "" && !EndsInWord(init) ==> Shown(init + [c]) == Shown(init)
    ensures !Alphanumeric(c) && (init == "" || EndsInWord(init)) ==>
              Shown(init + [c]) == if Shown(init) == "" then "" else Shown(init) + "-"
    ensures Alphanumeric(c) ==> Shown(init + [c]) == Shown(init) + [SlugChar(c)]
  {
    hide Words, Dashed, Alphanumeric, SlugChar;
    var words := Words(init);
    WordsLast(init, c);
    WordsShape(init);
    NoWords();
    EmptyHasNoWords();
    if Alphanumeric(c) {
      if EndsInWord(init) {
        DashedLonger(words, SlugChar(c));
      } else if words == [] {
        OneWord([SlugChar(c)]);
        assert [] + [[SlugChar(c)]] == [[SlugChar(c)]];
      } else {
        DashedMore(words, [SlugChar(c)]);
      }
    }
  }

  lemma EmptyHasNoWords()
    ensures Words("") == []
  {
  }

  lemma OneWord(word: string)
    ensures Dashed([word]) == word
  {
  }

  /** The readable part is the words of the container name with dashes between them, cut
      after 32 characters, or before a dash that the cut would leave at the end. */
  lemma ReadableIs(specName: string)
    ensures var whole := Dashed(Words(specName));
      Readable(specName) == if |whole| <= 32 then whole else if whole[31] == '-' then whole[..31] else whole[..32]
  {
    hide Words, Dashed, Collapse, Slug;
    var whole := Dashed(Words(specName));
    CollapsedIsShown(specName);
    WordsShape(specName);
    NoWords();
    var collapsed := Collapse(Slug(specName));
    assert TrimRight(Shown(specName)) == whole by { TrimShown(specName); }
    assert Trim(collapsed) == whole;
    assert NoDoubleDash(TrimLeft(collapsed));
    if |whole| > 32 {
      var cut := whole[..32];
      assert whole[30] != '-' || whole[31] != '-';
      assert whole[0] != '-';
      assert TrimLeft(cut) == cut;
      if whole[31] == '-' {
        assert cut[..31] == whole[..31];
        assert TrimRight(cut) == TrimRight(cut[..31]) == cut[..31];
      }
    }
  }

  lemma NoWords()
    ensures Dashed([]) == ""
  {
  }

  lemma TrimShown(s: string)
    ensures TrimRight(Shown(s)) == Dashed(Words(s))
  {
    hide Words, Dashed;
    WordsShape(s);
    NoWords();
    var whole := Dashed(Words(s));
    assert (whole + "-")[..|whole|] == whole;
    assert whole + "" == whole;
  }

  // ---------- collisions exist for every hash

  function Dashes(n: nat): (s: string)
    ensures |s| == n && forall i | 0 <= i < n :: s[i] == '-'
  {
    seq(n, _ => '-')
  }

  lemma {:induction false} CollapseDashes(readable: string, n: nat)
    requires Fragment(readable)
    ensures Collapse(readable + Dashes(n)) == readable + Dashes(if n == 0 then 0 else 1)
  {
    var s := readable + Dashes(n);
    if n == 0 {
      assert s == readable;
      CollapseKeeps(readable);
    } else {
      assert s[..|s| - 1] == readable + Dashes(n - 1);
      CollapseDashes(readable, n - 1);
      assert n == 1 ==> s[..|s| - 1] == readable;
      assert Dashes(1) == "-";
    }
  }

  /** Trailing dashes do not show in the readable part. */
  lemma ReadableDropsDashes(readable: string, n: nat)
    requires Fragment(readable)
    ensures Readable(readable + Dashes(n)) == readable
  {
    hide Collapse, Slug, Trim;
    SlugKeeps(readable + Dashes(n));
    CollapseDashes(readable, n);
    TrimDash(readable);
    assert readable + Dashes(0) == readable && readable + Dashes(1) == readable + "-";
  }

  lemma TrimDash(readable: string)
    requires Fragment(readable)
    ensures Trim(readable) == readable && Trim(readable + "-") == readable
  {
    var s := readable + "-";
    assert s[..|s| - 1] == readable;
    if readable == "" {
      assert TrimLeft(s) == TrimLeft(s[1..]) == "";
    } else {
      assert TrimLeft(s) == s;
      assert TrimRight(s) == TrimRight(s[..|s| - 1]);
    }
  }

  /** `width` characters that all become dashes and spell `n` in binary. */
  function Code(n: nat, width: nat): (s: string)
    ensures |s| == width
  {
    if width == 0 then "" else Code(n / 2, width - 1) + [if n % 2 == 0 then '-' else '_']
  }

  function Two(width: nat): nat
  {
    if width == 0 then 1 else 2 * Two(width - 1)
  }

  lemma {:induction false} CodeInjective(a: nat, b: nat, width: nat)
    requires a < Two(width) && b < Two(width) && Code(a, width) == Code(b, width)
    ensures a == b
  {
    if width > 0 {
      var s := Code(a, width);
      assert s[..width - 1] == Code(a / 2, width - 1) && s[..width - 1] == Code(b / 2, width - 1);
      assert s[width - 1] == (if a % 2 == 0 then '-' else '_') && s[width - 1] == if b % 2 == 0 then '-' else '_';
      CodeInjective(a / 2, b / 2, width - 1);
    }
  }

  lemma {:induction false} SlugOfCode(readable: string, n: nat, width: nat)
    requires AllLegal(readable)
    ensures Slug(readable + Code(n, width)) == readable + Dashes(width)
  {
    var s := readable + Code(n, width);
    if width == 0 {
      assert s == readable && readable + Dashes(0) == readable;
      SlugKeeps(readable);
    } else {
      assert s[..|s| - 1] == readable + Code(n / 2, width - 1);
      SlugOfCode(readable, n / 2, width - 1);
      assert SlugChar(s[|s| - 1]) == '-';
      assert Dashes(width - 1) + "-" == Dashes(width);
    }
  }

  /** A code does not show in the readable part. */
  lemma ReadableDropsCode(readable: string, n: nat, width: nat)
    requires Fragment(readable)
    ensures Readable(readable + Code(n, width)) == readable
  {
    hide Trim, Collapse, Slug, Take;
    SlugOfCode(readable, n, width);
    SlugKeeps(readable + Dashes(width));
    ReadableDropsDashes(readable, width);
  }

  const SUFFIXES: nat := 0x1_0000_0000_0000_0000

  function Value(bytes: seq<Byte>): nat
  {
    if bytes == [] then 0 else 256 * Value(bytes[..|bytes| - 1]) + bytes[|bytes| - 1]
  }

  function Power(n: nat): nat
  {
    if n == 0 then 1 else 256 * Power(n - 1)
  }

  lemma {:induction false} ValueBelow(bytes: seq<Byte>)
    ensures Value(bytes) < Power(|bytes|)
  {
    if bytes != [] { ValueBelow(bytes[..|bytes| - 1]); }
  }

  lemma {:induction false} ValueInjective(a: seq<Byte>, b: seq<Byte>)
    requires |a| == |b| && Value(a) == Value(b)
    ensures a == b
  {
    if a != [] {
      var n := |a| - 1;
      ValueInjective(a[..n], b[..n]);
      assert a == a[..n] + [a[n]] && b == b[..n] + [b[n]];
    }
  }

  lemma {:induction false} RangeSize(s: set<nat>, n: nat)
    requires forall x | x in s :: x < n
    ensures |s| <= n
  {
    if n == 0 {
      assert s == {};
    } else {
      RangeSize(s - {n - 1}, n - 1);
    }
  }

  ghost function Image(f: nat -> nat, n: nat): set<nat>
  {
    if n == 0 then {} else Image(f, n - 1) + {f(n - 1)}
  }

  lemma {:induction false} InImage(f: nat -> nat, n: nat, x: nat)
    requires x in Image(f, n)
    ensures exists i: nat :: i < n && f(i) == x
  {
    if x != f(n - 1) { InImage(f, n - 1, x); }
  }

  lemma {:induction false} ImageSize(f: nat -> nat, n: nat)
    requires forall i: nat, j: nat | i < j < n :: f(i) != f(j)
    ensures |Image(f, n)| == n
  {
    if n > 0 {
      ImageSize(f, n - 1);
      NotInImage(f, n - 1);
      OneMore(Image(f, n - 1), f(n - 1));
    }
  }

  lemma NotInImage(f: nat -> nat, n: nat)
    requires forall i: nat | i < n :: f(i) != f(n)
    ensures f(n) !in Image(f, n)
  {
    hide Image;
    if f(n) in Image(f, n) { InImage(f, n, f(n)); }
  }

  lemma OneMore(s: set<nat>, x: nat)
    requires x !in s
    ensures |s + {x}| == |s| + 1
  {
  }

  lemma Pigeonhole(f: nat -> nat, n: nat) returns (i: nat, j: nat)
    requires forall k: nat | k <= n :: f(k) < n
    ensures i < j <= n && f(i) == f(j)
  {
    if forall a: nat, b: nat | a < b < n + 1 :: f(a) != f(b) {
      ImageSize(f, n + 1);
      var image := Image(f, n + 1);
      forall x | x in image ensures x < n { InImage(f, n + 1, x); }
      RangeSize(image, n);
    }
    i, j :| i < j < n + 1 && f(i) == f(j);
  }

  const CODE_WIDTH: nat := 65

  lemma {:induction false} TwoByEights(k: nat)
    ensures Two(8 * k) == Power(k)
  {
    if k > 0 {
      TwoByEights(k - 1);
      var n := 8 * (k - 1);
      assert Two(n + 2) == 4 * Two(n);
      assert Two(n + 4) == 4 * Two(n + 2);
      assert Two(n + 6) == 4 * Two(n + 4);
      assert Two(n + 8) == 4 * Two(n + 6);
    }
  }

  lemma CodesSuffice()
    ensures Power(8) == SUFFIXES && Two(CODE_WIDTH) == 2 * SUFFIXES
  {
    TwoByEights(8);
    assert Power(8) == SUFFIXES;
    assert Two(65) == 2 * Two(64);
  }

  lemma FragmentIsShort(readable: string)
    requires Fragment(readable)
    ensures |readable| <= 32
  {
  }

  lemma DifferentCodes(readable: string, i: nat, j: nat)
    requires i < j <= SUFFIXES
    ensures readable + Code(i, CODE_WIDTH) != readable + Code(j, CODE_WIDTH)
  {
    hide Code, Two, Power;
    var a, b := readable + Code(i, CODE_WIDTH), readable + Code(j, CODE_WIDTH);
    assert a[|readable|..] == Code(i, CODE_WIDTH) && b[|readable|..] == Code(j, CODE_WIDTH);
    CodesSuffice();
    if a == b { CodeInjective(i, j, CODE_WIDTH); }
  }

  /** Whatever the hash, every readable part is shared by two containers of at most 97
      characters with one job name: the derivation is not injective. */
  lemma NeverInjective(sha: string -> seq<Byte>, readable: string)
    requires Fragment(readable) && forall s :: |sha(s)| == 32
    ensures exists a, b :: a != b && |a| <= 97 && |b| <= 97
              && Readable(a) == Readable(b) == readable && NameOf(a, sha(a)) == NameOf(b, sha(b))
  {
    hide Readable, NameOf, Value, Code, Two, Power, Fragment;
    CodesSuffice();
    var f := (n: nat) => Value(sha(readable + Code(n, CODE_WIDTH))[..8]);
    forall n: nat ensures f(n) < SUFFIXES {
      ValueBelow(sha(readable + Code(n, CODE_WIDTH))[..8]);
    }
    var i, j := Pigeonhole(f, SUFFIXES);
    var a, b := readable + Code(i, CODE_WIDTH), readable + Code(j, CODE_WIDTH);
    ReadableDropsCode(readable, i, CODE_WIDTH);
    ReadableDropsCode(readable, j, CODE_WIDTH);
    ValueInjective(sha(a)[..8], sha(b)[..8]);
    SameNameIff(a, sha(a), b, sha(b));
    FragmentIsShort(readable);
    DifferentCodes(readable, i, j);
  }

  /** A legal fragment comes through unchanged. */
  lemma ReadableKeepsFragments(s: string)
    requires Fragment(s)
    ensures Readable(s) == s
  {
    SlugKeeps(s);
    CollapseKeeps(s);
  }

  lemma {:induction false} SlugKeeps(s: string)
    requires AllLegal(s)
    ensures Slug(s) == s
  {
    if s != "" {
      SlugKeeps(s[..|s| - 1]);
      assert s == s[..|s| - 1] + [s[|s| - 1]];
    }
  }

  lemma {:induction false} CollapseKeeps(s: string)
    requires NoDoubleDash(s)
    ensures Collapse(s) == s
  {
    if s != "" {
      CollapseKeeps(s[..|s| - 1]);
      assert s == s[..|s| - 1] + [s[|s| - 1]];
    }
  }

  /** The letters and digits of a text, lower-cased. */
  function Content(s: string): string
  {
    if s == "" then ""
    else Content(s[..|s| - 1]) + if Alphanumeric(s[|s| - 1]) then [ToLower(s[|s| - 1])] else ""
  }

  lemma {:induction false} ContentConcat(s: string, t: string)
    ensures Content(s + t) == Content(s) + Content(t)
  {
    if t == "" {
      assert s + t == s;
    } else {
      var init, last := t[..|t| - 1], t[|t| - 1];
      assert (s + t)[..|s + t| - 1] == s + init;
      ContentConcat(s, init);
    }
  }

  lemma {:induction false} SlugContent(s: string)
    ensures Content(Slug(s)) == Content(s)
  {
    if s != "" {
      SlugContent(s[..|s| - 1]);
      assert Slug(s)[..|s| - 1] == Slug(s[..|s| - 1]);
    }
  }

  lemma {:induction false} CollapseContent(s: string)
    ensures Content(Collapse(s)) == Content(s)
  {
    if s != "" {
      CollapseContent(s[..|s| - 1]);
      var t := Collapse(s[..|s| - 1]);
      assert (t + [s[|s| - 1]])[..|t|] == t;
    }
  }

  lemma {:induction false} TrimLeftContent(s: string)
    ensures Content(TrimLeft(s)) == Content(s)
  {
    if s != "" && s[0] == '-' {
      TrimLeftContent(s[1..]);
      ContentConcat("-", s[1..]);
      assert s == "-" + s[1..] && Content("-") == "";
    }
  }

  lemma {:induction false} TrimRightContent(s: string)
    ensures Content(TrimRight(s)) == Content(s)
  {
    if EndsInDash(s) { TrimRightContent(s[..|s| - 1]); }
  }

  lemma TrimContent(s: string)
    ensures Content(Trim(s)) == Content(s)
  {
    TrimLeftContent(s);
    TrimRightContent(TrimLeft(s));
  }

  /** The readable part shows the container name's own letters and digits, in
      order, from the first one on. */
  lemma ReadableContent(specName: string)
    ensures Content(Readable(specName)) <= Content(specName)
  {
    hide Trim, Collapse, Slug, Content;
    var a := Trim(Collapse(Slug(specName)));
    SlugContent(specName);
    CollapseContent(Slug(specName));
    TrimContent(Collapse(Slug(specName)));
    TrimContent(Take(a));
    assert a == Take(a) + a[|Take(a)|..];
    ContentConcat(Take(a), a[|Take(a)|..]);
  }
}
