/** The v2 result-binding pre-image: the bytes a fabric signs and a client
    rebuilds before it trusts a verdict. */
module Binding {
  import opened Common

  type Bytes = seq<Byte>
  type I32 = n: int | -0x8000_0000 <= n < 0x8000_0000
  type U32 = n: int | 0 <= n < 0x1_0000_0000

  const U32_MAX: int := 0xFFFF_FFFF

  datatype Artifact = Artifact(path: Bytes, digest: Bytes)

  /** The fields of a check result that the signature covers; text is its UTF-8 bytes. */
  datatype Outcome = Outcome(memoKey: Bytes, stdoutRef: Bytes, stderrRef: Bytes, exit: I32, artifacts: seq<Artifact>)

  // ---------- words

  function Be32(n: U32): (b: Bytes)
    ensures |b| == 4
  {
    [n / 0x100 / 0x100 / 0x100, n / 0x100 / 0x100 % 0x100, n / 0x100 % 0x100, n % 0x100]
  }

  function ReadBe32(b: Bytes): (n: U32)
    requires |b| >= 4
  {
    Value(b[0], b[1], b[2], b[3])
  }

  function Value(b0: int, b1: int, b2: int, b3: int): int
  {
    ((b0 * 0x100 + b1) * 0x100 + b2) * 0x100 + b3
  }

  lemma Be32RoundTrip(n: U32, rest: Bytes)
    ensures ReadBe32(Be32(n) + rest) == n
  {
  }

  lemma Be32Canonical(b: Bytes)
    requires |b| >= 4
    ensures Be32(ReadBe32(b)) == b[..4]
  {
    hide Be32, Value;
    Digits(b[0], b[1], b[2], b[3]);
    assert b[..4] == [b[0], b[1], b[2], b[3]];
  }

  lemma Digits(b0: Byte, b1: Byte, b2: Byte, b3: Byte)
    ensures 0 <= Value(b0, b1, b2, b3) < 0x1_0000_0000
    ensures Be32(Value(b0, b1, b2, b3)) == [b0, b1, b2, b3]
  {
    var high := b0 * 0x100 + b1;
    var n := Value(b0, b1, b2, b3);
    assert n / 0x100 == high * 0x100 + b2 && n % 0x100 == b3;
    assert n / 0x100 / 0x100 == high && n / 0x100 % 0x100 == b2;
  }

  /** Two's complement. */
  function Word(n: I32): U32
  {
    if n < 0 then n + 0x1_0000_0000 else n
  }

  function Signed(w: U32): I32
  {
    if w >= 0x8000_0000 then w - 0x1_0000_0000 else w
  }

  lemma SignedOfWord(n: I32)
    ensures Signed(Word(n)) == n
  {
  }

  lemma WordOfSigned(w: U32)
    ensures Word(Signed(w)) == w
  {
  }

  // ---------- what the encoder must produce

  predicate Fits(s: Bytes)
  {
    |s| <= U32_MAX
  }

  function Lp(s: Bytes): Bytes
    requires Fits(s)
  {
    Be32(|s|) + s
  }

  predicate ArtifactFits(a: Artifact)
  {
    Fits(a.path) && Fits(a.digest)
  }

  predicate AllFit(artifacts: seq<Artifact>)
  {
    forall i | 0 <= i < |artifacts| :: ArtifactFits(artifacts[i])
  }

  lemma AllFitIff(artifacts: seq<Artifact>)
    ensures AllFit(artifacts) <==> forall a | a in artifacts :: |a.path| < 0x1_0000_0000 && |a.digest| < 0x1_0000_0000
  {
  }

  function ArtifactsBytes(artifacts: seq<Artifact>): Bytes
    requires AllFit(artifacts)
  {
    if artifacts == [] then []
    else Lp(artifacts[0].path) + Lp(artifacts[0].digest) + ArtifactsBytes(artifacts[1..])
  }

  predicate Encodable(o: Outcome)
  {
    && Fits(o.memoKey) && Fits(o.stdoutRef) && Fits(o.stderrRef)
    && |o.artifacts| <= U32_MAX && AllFit(o.artifacts)
  }

  function Preimage(o: Outcome): Bytes
    requires Encodable(o)
  {
    Lp(o.memoKey) + Lp(o.stdoutRef) + Lp(o.stderrRef) + Be32(Word(o.exit)) + Be32(|o.artifacts|)
    + ArtifactsBytes(o.artifacts)
  }

  // ---------- where every byte stands

  /** The four bytes of `n`, most significant first. */
  predicate WordAt(b: Bytes, at: nat, n: int)
  {
    && at + 4 <= |b|
    && b[at] == n / 0x100_0000 % 0x100 && b[at + 1] == n / 0x1_0000 % 0x100
    && b[at + 2] == n / 0x100 % 0x100 && b[at + 3] == n % 0x100
  }

  /** The length of `s` and then `s` itself. */
  predicate FieldAt(b: Bytes, at: nat, s: Bytes)
  {
    WordAt(b, at, |s|) && at + 4 + |s| <= |b| && b[at + 4..at + 4 + |s|] == s
  }

  /** Path and digest of each artifact, to the end. */
  predicate ArtifactsAt(b: Bytes, at: nat, artifacts: seq<Artifact>)
    decreases artifacts
  {
    if artifacts == [] then at == |b|
    else
      var digestAt := at + 4 + |artifacts[0].path|;
      && FieldAt(b, at, artifacts[0].path) && FieldAt(b, digestAt, artifacts[0].digest)
      && ArtifactsAt(b, digestAt + 4 + |artifacts[0].digest|, artifacts[1..])
  }

  /** Memo key, stdout ref, stderr ref, the exit code in two's complement, the number of
      artifacts and the artifacts, with nothing in between or after. */
  predicate Layout(b: Bytes, o: Outcome)
  {
    var stdoutAt := 4 + |o.memoKey|;
    var stderrAt := stdoutAt + 4 + |o.stdoutRef|;
    var exitAt := stderrAt + 4 + |o.stderrRef|;
    && FieldAt(b, 0, o.memoKey) && FieldAt(b, stdoutAt, o.stdoutRef) && FieldAt(b, stderrAt, o.stderrRef)
    && WordAt(b, exitAt, if o.exit < 0 then 0x1_0000_0000 + o.exit else o.exit)
    && WordAt(b, exitAt + 4, |o.artifacts|)
    && ArtifactsAt(b, exitAt + 8, o.artifacts)
  }

  lemma Be32Bytes(n: U32)
    ensures Be32(n) == [n / 0x100_0000 % 0x100, n / 0x1_0000 % 0x100, n / 0x100 % 0x100, n % 0x100]
  {
    assert n / 0x100 / 0x100 == n / 0x1_0000;
    assert n / 0x1_0000 / 0x100 == n / 0x100_0000 < 0x100;
  }

  lemma WordAtIff(b: Bytes, at: nat, n: U32)
    ensures WordAt(b, at, n) <==> at + 4 <= |b| && b[at..at + 4] == Be32(n)
  {
    hide Be32;
    Be32Bytes(n);
    if at + 4 <= |b| { assert b[at..at + 4] == [b[at], b[at + 1], b[at + 2], b[at + 3]]; }
  }

  lemma FieldAtIff(b: Bytes, at: nat, s: Bytes)
    requires Fits(s)
    ensures FieldAt(b, at, s) <==> at + 4 + |s| <= |b| && b[at..at + 4 + |s|] == Lp(s)
  {
    hide Be32, WordAt;
    WordAtIff(b, at, |s|);
    if at + 4 + |s| <= |b| { SliceSplits(b, at, Be32(|s|), s); }
  }

  /** A stretch is two parts exactly when its two stretches are these. */
  lemma SliceSplits(b: Bytes, at: nat, x: Bytes, y: Bytes)
    requires at + |x| + |y| <= |b|
    ensures b[at..at + |x| + |y|] == x + y <==> b[at..at + |x|] == x && b[at + |x|..at + |x| + |y|] == y
  {
    var whole := b[at..at + |x| + |y|];
    assert whole[..|x|] == b[at..at + |x|] && whole[|x|..] == b[at + |x|..at + |x| + |y|];
    assert whole == whole[..|x|] + whole[|x|..];
    assert (x + y)[..|x|] == x && (x + y)[|x|..] == y;
  }

  lemma TailSplits(b: Bytes, at: nat, x: Bytes, y: Bytes)
    requires at <= |b|
    ensures b[at..] == x + y <==> at + |x| <= |b| && b[at..at + |x|] == x && b[at + |x|..] == y
  {
    if at + |x| <= |b| {
      assert b[at..][..|x|] == b[at..at + |x|] && b[at..][|x|..] == b[at + |x|..];
      assert b[at..] == b[at..][..|x|] + b[at..][|x|..];
    }
    assert (x + y)[..|x|] == x && (x + y)[|x|..] == y;
  }

  lemma {:induction false} ArtifactsAtIff(b: Bytes, at: nat, artifacts: seq<Artifact>)
    requires AllFit(artifacts)
    ensures ArtifactsAt(b, at, artifacts) <==> at <= |b| && b[at..] == ArtifactsBytes(artifacts)
    decreases artifacts
  {
    hide Lp, FieldAt;
    if artifacts != [] {
      var a, more := artifacts[0], ArtifactsBytes(artifacts[1..]);
      var digestAt := at + 4 + |a.path|;
      LpLength(a.path);
      LpLength(a.digest);
      FieldAtIff(b, at, a.path);
      FieldAtIff(b, digestAt, a.digest);
      ArtifactsAtIff(b, digestAt + 4 + |a.digest|, artifacts[1..]);
      assert Lp(a.path) + Lp(a.digest) + more == Lp(a.path) + (Lp(a.digest) + more);
      if at <= |b| { TailSplits(b, at, Lp(a.path), Lp(a.digest) + more); }
      if digestAt <= |b| { TailSplits(b, digestAt, Lp(a.digest), more); }
    }
  }

  lemma LpLength(s: Bytes)
    requires Fits(s)
    ensures |Lp(s)| == 4 + |s|
  {
  }

  function AfterFields(o: Outcome): Bytes
    requires Encodable(o)
  {
    Be32(Word(o.exit)) + (Be32(|o.artifacts|) + ArtifactsBytes(o.artifacts))
  }

  lemma PreimageGroups(o: Outcome)
    requires Encodable(o)
    ensures Preimage(o) == Lp(o.memoKey) + (Lp(o.stdoutRef) + (Lp(o.stderrRef) + AfterFields(o)))
  {
    hide Lp, Be32, Word, ArtifactsBytes;
  }

  lemma AfterFieldsAt(b: Bytes, at: nat, o: Outcome)
    requires Encodable(o) && at <= |b|
    ensures b[at..] == AfterFields(o) <==>
            WordAt(b, at, if o.exit < 0 then 0x1_0000_0000 + o.exit else o.exit)
            && WordAt(b, at + 4, |o.artifacts|) && ArtifactsAt(b, at + 8, o.artifacts)
  {
    hide Be32, WordAt, ArtifactsAt, ArtifactsBytes;
    var more := ArtifactsBytes(o.artifacts);
    WordAtIff(b, at, Word(o.exit));
    WordAtIff(b, at + 4, |o.artifacts|);
    ArtifactsAtIff(b, at + 8, o.artifacts);
    TailSplits(b, at, Be32(Word(o.exit)), Be32(|o.artifacts|) + more);
    if at + 4 <= |b| { TailSplits(b, at + 4, Be32(|o.artifacts|), more); }
  }

  /** The pre-image is the one byte string with this layout. */
  lemma LayoutIff(b: Bytes, o: Outcome)
    requires Encodable(o)
    ensures Layout(b, o) <==> b == Preimage(o)
  {
    hide Lp, FieldAt, WordAt, ArtifactsAt, AfterFields, Preimage;
    PreimageGroups(o);
    var rest := AfterFields(o);
    var stdoutAt := 4 + |o.memoKey|;
    var stderrAt := stdoutAt + 4 + |o.stdoutRef|;
    var exitAt := stderrAt + 4 + |o.stderrRef|;
    LpLength(o.memoKey);
    LpLength(o.stdoutRef);
    LpLength(o.stderrRef);
    FieldAtIff(b, 0, o.memoKey);
    FieldAtIff(b, stdoutAt, o.stdoutRef);
    FieldAtIff(b, stderrAt, o.stderrRef);
    assert b[0..] == b;
    TailSplits(b, 0, Lp(o.memoKey), Lp(o.stdoutRef) + (Lp(o.stderrRef) + rest));
    if stdoutAt <= |b| { TailSplits(b, stdoutAt, Lp(o.stdoutRef), Lp(o.stderrRef) + rest); }
    if stderrAt <= |b| { TailSplits(b, stderrAt, Lp(o.stderrRef), rest); }
    if exitAt <= |b| { AfterFieldsAt(b, exitAt, o); }
  }

  // ---------- the encoder

  class Buffer {
    var bytes: Bytes

    constructor ()
      ensures bytes == []
    {
      bytes := [];
    }

    method Extend(more: Bytes)
      modifies this
      ensures bytes == old(bytes) + more
    {
      bytes := bytes + more;
    }
  }

  /** Appends the framed field, or leaves the buffer alone when it is too long. */
  method AppendLp(out: Buffer, s: Bytes) returns (ok: bool)
    modifies out
    ensures ok <==> Fits(s)
    ensures out.bytes == if Fits(s) then old(out.bytes) + Lp(s) else old(out.bytes)
  {
    if |s| > U32_MAX { return false; }
    out.Extend(Be32(|s|));
    out.Extend(s);
    assert old(out.bytes) + Be32(|s|) + s == old(out.bytes) + Lp(s);
    return true;
  }

  lemma ArtifactsAppend(done: seq<Artifact>, a: Artifact)
    requires ArtifactFits(a) && AllFit(done)
    ensures ArtifactsBytes(done + [a]) == ArtifactsBytes(done) + Lp(a.path) + Lp(a.digest)
  {
    hide Lp;
    if done == [] {
      assert done + [a] == [a];
    } else {
      ArtifactsAppend(done[1..], a);
      assert (done + [a])[1..] == done[1..] + [a];
      var first := Lp(done[0].path) + Lp(done[0].digest);
      Regroup(first, ArtifactsBytes(done[1..]), Lp(a.path), Lp(a.digest));
      Regroup(ArtifactsBytes(done[1..]), Lp(a.path), Lp(a.digest), []);
    }
  }

  method AppendArtifact(out: Buffer, a: Artifact) returns (ok: bool)
    modifies out
    ensures ok <==> ArtifactFits(a)
    ensures ok ==> out.bytes == old(out.bytes) + Lp(a.path) + Lp(a.digest)
  {
    hide Lp;
    ok := AppendLp(out, a.path);
    if ok { ok := AppendLp(out, a.digest); }
  }

  method AppendArtifacts(out: Buffer, artifacts: seq<Artifact>) returns (ok: bool)
    modifies out
    ensures ok <==> AllFit(artifacts)
    ensures ok ==> out.bytes == old(out.bytes) + ArtifactsBytes(artifacts)
  {
    hide Lp, ArtifactFits;
    for i := 0 to |artifacts|
      invariant AllFit(artifacts[..i])
      invariant out.bytes == old(out.bytes) + ArtifactsBytes(artifacts[..i])
    {
      ok := AppendArtifact(out, artifacts[i]);
      if !ok { return; }
      ArtifactsAppend(artifacts[..i], artifacts[i]);
      assert artifacts[..i + 1] == artifacts[..i] + [artifacts[i]];
    }
    assert artifacts[..|artifacts|] == artifacts;
    ok := true;
  }

  /** Encoding fails exactly when a length or the count does not fit 32 bits. */
  method PreimageV2(o: Outcome) returns (r: Option<Bytes>)
    ensures r.Some? <==> Encodable(o)
    ensures r.Some? <==>
            && |o.memoKey| < 0x1_0000_0000 && |o.stdoutRef| < 0x1_0000_0000 && |o.stderrRef| < 0x1_0000_0000
            && |o.artifacts| < 0x1_0000_0000
            && forall a | a in o.artifacts :: |a.path| < 0x1_0000_0000 && |a.digest| < 0x1_0000_0000
    ensures r.Some? ==> r.value == Preimage(o) && Layout(r.value, o)
  {
    hide Lp, Be32, Word, AllFit, ArtifactsBytes, Layout;
    AllFitIff(o.artifacts);
    var out := new Buffer();
    var ok := AppendLp(out, o.memoKey);
    if !ok { return None; }
    ok := AppendLp(out, o.stdoutRef);
    if !ok { return None; }
    ok := AppendLp(out, o.stderrRef);
    if !ok { return None; }
    out.Extend(Be32(Word(o.exit)));
    if |o.artifacts| > U32_MAX { return None; }
    out.Extend(Be32(|o.artifacts|));
    ok := AppendArtifacts(out, o.artifacts);
    if !ok { return None; }
    assert [] + Lp(o.memoKey) == Lp(o.memoKey);
    LayoutIff(out.bytes, o);
    return Some(out.bytes);
  }

  // ---------- the decoder

  function TakeLp(b: Bytes): (r: Option<(Bytes, Bytes)>)
    ensures r.Some? ==> |r.value.1| < |b|
  {
    if |b| < 4 || |b| < 4 + ReadBe32(b) then None
    else Some((b[4..4 + ReadBe32(b)], b[4 + ReadBe32(b)..]))
  }

  function TakeArtifacts(b: Bytes, count: nat): Option<(seq<Artifact>, Bytes)>
    decreases count
  {
    if count == 0 then Some(([], b))
    else match TakeLp(b)
      case None => None
      case Some((path, b1)) =>
        match TakeLp(b1)
        case None => None
        case Some((digest, b2)) =>
          match TakeArtifacts(b2, count - 1)
          case None => None
          case Some((artifacts, rest)) => Some(([Artifact(path, digest)] + artifacts, rest))
  }

  /** Reads one outcome off the front of a byte string. */
  function Decode(b: Bytes): Option<(Outcome, Bytes)>
  {
    match TakeLp(b)
    case None => None
    case Some((memoKey, b1)) =>
      match TakeLp(b1)
      case None => None
      case Some((stdoutRef, b2)) =>
        match TakeLp(b2)
        case None => None
        case Some((stderrRef, b3)) =>
          if |b3| < 8 then None
          else match TakeArtifacts(b3[8..], ReadBe32(b3[4..]))
            case None => None
            case Some((artifacts, rest)) =>
              Some((Outcome(memoKey, stdoutRef, stderrRef, Signed(ReadBe32(b3)), artifacts), rest))
  }

  lemma TakeLpOfLp(s: Bytes, rest: Bytes)
    requires Fits(s)
    ensures TakeLp(Lp(s) + rest) == Some((s, rest))
  {
  }

  lemma TakeLpCanonical(b: Bytes)
    requires TakeLp(b).Some?
    ensures var (s, rest) := TakeLp(b).value; Fits(s) && b == Lp(s) + rest
  {
    Be32Canonical(b);
    var n := ReadBe32(b);
    assert b == b[..4] + b[4..4 + n] + b[4 + n..];
  }

  lemma Regroup(a: Bytes, b: Bytes, c: Bytes, d: Bytes)
    ensures a + b + c + d == a + (b + (c + d))
  {
  }

  lemma {:induction false} TakeArtifactsOfBytes(artifacts: seq<Artifact>, rest: Bytes)
    requires AllFit(artifacts)
    ensures TakeArtifacts(ArtifactsBytes(artifacts) + rest, |artifacts|) == Some((artifacts, rest))
  {
    hide Lp, TakeLp;
    if artifacts == [] {
      assert [] + rest == rest;
    } else {
      var a, more := artifacts[0], ArtifactsBytes(artifacts[1..]) + rest;
      Regroup(Lp(a.path), Lp(a.digest), ArtifactsBytes(artifacts[1..]), rest);
      TakeLpOfLp(a.path, Lp(a.digest) + more);
      TakeLpOfLp(a.digest, more);
      TakeArtifactsOfBytes(artifacts[1..], rest);
      assert artifacts == [a] + artifacts[1..];
    }
  }

  lemma {:induction false} TakeArtifactsCanonical(b: Bytes, count: nat)
    requires TakeArtifacts(b, count).Some?
    ensures var (artifacts, rest) := TakeArtifacts(b, count).value;
      |artifacts| == count && AllFit(artifacts) && b == ArtifactsBytes(artifacts) + rest
    decreases count
  {
    hide Lp, TakeLp;
    if count == 0 {
      assert b == [] + b;
    } else {
      var (path, b1) := TakeLp(b).value;
      TakeLpCanonical(b);
      var (digest, b2) := TakeLp(b1).value;
      TakeLpCanonical(b1);
      TakeArtifactsCanonical(b2, count - 1);
      var (tail, rest) := TakeArtifacts(b2, count - 1).value;
      var artifacts := [Artifact(path, digest)] + tail;
      assert artifacts[1..] == tail;
      assert b == Lp(path) + Lp(digest) + ArtifactsBytes(tail) + rest;
    }
  }

  /** Every encoding, whatever follows it, decodes to what was encoded. */
  lemma DecodePreimage(o: Outcome, rest: Bytes)
    requires Encodable(o)
    ensures Decode(Preimage(o) + rest) == Some((o, rest))
  {
    hide Lp, Be32, ReadBe32, TakeLp, Word, Signed, TakeArtifacts, ArtifactsBytes;
    SignedOfWord(o.exit);
    var tail := ArtifactsBytes(o.artifacts) + rest;
    var words := Be32(Word(o.exit)) + (Be32(|o.artifacts|) + tail);
    assert Preimage(o) + rest == Lp(o.memoKey) + (Lp(o.stdoutRef) + (Lp(o.stderrRef) + words));
    TakeLpOfLp(o.memoKey, Lp(o.stdoutRef) + (Lp(o.stderrRef) + words));
    TakeLpOfLp(o.stdoutRef, Lp(o.stderrRef) + words);
    TakeLpOfLp(o.stderrRef, words);
    Be32RoundTrip(Word(o.exit), Be32(|o.artifacts|) + tail);
    Be32RoundTrip(|o.artifacts|, tail);
    assert words[4..] == Be32(|o.artifacts|) + tail && words[8..] == tail;
    TakeArtifactsOfBytes(o.artifacts, rest);
  }

  /** Nothing but an encoding decodes. */
  lemma DecodeCanonical(b: Bytes)
    requires Decode(b).Some?
    ensures var (o, rest) := Decode(b).value; Encodable(o) && b == Preimage(o) + rest
  {
    hide Lp, Be32, ReadBe32, TakeLp, Word, Signed, TakeArtifacts, ArtifactsBytes;
    var (memoKey, b1) := TakeLp(b).value;
    TakeLpCanonical(b);
    var (stdoutRef, b2) := TakeLp(b1).value;
    TakeLpCanonical(b1);
    var (stderrRef, b3) := TakeLp(b2).value;
    TakeLpCanonical(b2);
    Be32Canonical(b3);
    Be32Canonical(b3[4..]);
    TakeArtifactsCanonical(b3[8..], ReadBe32(b3[4..]));
    var (o, rest) := Decode(b).value;
    WordOfSigned(ReadBe32(b3));
    assert b3 == b3[..4] + b3[4..][..4] + b3[8..];
    assert b3 == Be32(Word(o.exit)) + Be32(|o.artifacts|) + (ArtifactsBytes(o.artifacts) + rest);
    assert b == Lp(memoKey) + (Lp(stdoutRef) + (Lp(stderrRef) + b3));
    assert b == Preimage(o) + rest;
  }

  /** The format is prefix-free; in particular equal pre-images bind equal
      outcomes, the order of the artifacts included. */
  lemma PreimagePrefixFree(a: Outcome, b: Outcome)
    requires Encodable(a) && Encodable(b) && Preimage(a) <= Preimage(b)
    ensures a == b
  {
    var rest := Preimage(b)[|Preimage(a)|..];
    assert Preimage(b) == Preimage(a) + rest && Preimage(b) == Preimage(b) + [];
    DecodePreimage(a, rest);
    DecodePreimage(b, []);
  }
}
