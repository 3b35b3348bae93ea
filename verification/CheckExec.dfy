/** Two loops of the check-exec server: the token comparison and the bounded capture. */
module CheckExec {
  import opened Common

  // ---------- ct_eq

  function Xor(x: nat, y: nat): nat
  {
    if x == 0 && y == 0 then 0 else (x + y) % 2 + 2 * Xor(x / 2, y / 2)
  }

  function Or(x: nat, y: nat): nat
  {
    if x == 0 && y == 0 then 0 else (if x % 2 == 1 || y % 2 == 1 then 1 else 0) + 2 * Or(x / 2, y / 2)
  }

  /** The low `k` bits; `as u8` keeps eight. */
  function Low(x: nat, k: nat): nat
    decreases k
  {
    if k == 0 then 0 else x % 2 + 2 * Low(x / 2, k - 1)
  }

  lemma {:induction false} XorZero(x: nat, y: nat)
    ensures Xor(x, y) == 0 <==> x == y
  {
    if x > 0 || y > 0 { XorZero(x / 2, y / 2); }
  }

  lemma {:induction false} OrZero(x: nat, y: nat)
    ensures Or(x, y) == 0 <==> x == 0 && y == 0
  {
    if x > 0 || y > 0 { OrZero(x / 2, y / 2); }
  }

  lemma {:induction false} XorBits(x: nat, y: nat)
    ensures Xor(x, y) % 2 == (x + y) % 2 && Xor(x, y) / 2 == Xor(x / 2, y / 2)
  {
    if x > 0 || y > 0 {
      Halves((x + y) % 2, Xor(x / 2, y / 2));
    }
  }

  lemma Halves(bit: nat, rest: nat)
    requires bit < 2
    ensures (bit + 2 * rest) % 2 == bit && (bit + 2 * rest) / 2 == rest
  {
  }

  lemma {:induction false} LowXor(x: nat, y: nat, k: nat)
    ensures Low(Xor(x, y), k) == 0 <==> Low(x, k) == Low(y, k)
    decreases k
  {
    hide Xor, Low;
    if k == 0 {
      LowNone(x, y);
    } else {
      XorBits(x, y);
      LowXor(x / 2, y / 2, k - 1);
      LowStep(x, k);
      LowStep(y, k);
      LowStep(Xor(x, y), k);
      SameBits(x, y, Low(x / 2, k - 1), Low(y / 2, k - 1));
    }
  }

  lemma LowNone(x: nat, y: nat)
    ensures Low(x, 0) == 0 && Low(y, 0) == 0 && Low(Xor(x, y), 0) == 0
  {
  }

  lemma LowStep(x: nat, k: nat)
    requires k > 0
    ensures Low(x, k) == x % 2 + 2 * Low(x / 2, k - 1)
  {
  }

  lemma SameBits(x: nat, y: nat, a: nat, b: nat)
    ensures x % 2 + 2 * a == y % 2 + 2 * b <==> x % 2 == y % 2 && a == b
    ensures (x + y) % 2 == 0 <==> x % 2 == y % 2
  {
  }

  lemma LowByte(x: nat)
    ensures Low(x, 8) == x % 256
  {
    hide Low;
    LowFour(x, 4);
    LowFour(x / 16, 0);
    LowNone(x / 16 / 16, 0);
    Nibbles(x);
  }

  lemma LowFour(x: nat, k: nat)
    ensures Low(x, k + 4) == x % 16 + 16 * Low(x / 16, k)
  {
    hide Low;
    LowTwo(x, k + 2);
    LowTwo(x / 4, k);
    Pairs(x);
  }

  lemma LowTwo(x: nat, k: nat)
    ensures Low(x, k + 2) == x % 4 + 4 * Low(x / 4, k)
  {
    hide Low;
    LowStep(x, k + 2);
    LowStep(x / 2, k + 1);
    assert x / 2 / 2 == x / 4;
  }

  lemma Pairs(x: nat)
    ensures x / 4 / 4 == x / 16 && x % 4 + 4 * (x / 4 % 4) == x % 16
  {
  }

  lemma Nibbles(x: nat)
    ensures x % 16 + 16 * (x / 16 % 16) == x % 256
  {
  }

  function At(s: seq<Byte>, i: nat): Byte
  {
    if i < |s| then s[i] else 0
  }

  ghost predicate PaddedEqual(a: seq<Byte>, b: seq<Byte>, n: nat)
  {
    forall i: nat | i < n :: At(a, i) == At(b, i)
  }

  function Longer(a: seq<Byte>, b: seq<Byte>): nat
  {
    if |a| < |b| then |b| else |a|
  }

  ghost predicate Accepts(a: seq<Byte>, b: seq<Byte>)
  {
    |a| % 256 == |b| % 256 && PaddedEqual(a, b, Longer(a, b))
  }

  /** Accepts when the lengths agree in their low byte and the inputs agree once the
      shorter one is padded with zero bytes. */
  method CtEq(a: seq<Byte>, b: seq<Byte>) returns (equal: bool)
    ensures equal <==> Accepts(a, b)
  {
    var diff := Low(Xor(|a|, |b|), 8);
    LowXor(|a|, |b|, 8);
    LowByte(|a|);
    LowByte(|b|);
    for i := 0 to Longer(a, b)
      invariant diff == 0 <==> |a| % 256 == |b| % 256 && PaddedEqual(a, b, i)
    {
      OrZero(diff, Xor(At(a, i), At(b, i)));
      XorZero(At(a, i), At(b, i));
      diff := Or(diff, Xor(At(a, i), At(b, i)));
    }
    equal := diff == 0;
  }

  /** One input is the other followed by a positive multiple of 256 zero bytes. */
  ghost predicate ZeroExtended(a: seq<Byte>, b: seq<Byte>)
  {
    |a| < |b| && (|b| - |a|) % 256 == 0 && a <= b && forall i | |a| <= i < |b| :: b[i] == 0
  }

  /** The comparison decides equality exactly when neither input is a zero extension
      of the other. */
  lemma AcceptsIsEqualityIff(a: seq<Byte>, b: seq<Byte>)
    ensures (Accepts(a, b) <==> a == b) <==> !ZeroExtended(a, b) && !ZeroExtended(b, a)
  {
    if a == b {
      assert Accepts(a, b);
    } else if |a| == |b| {
      assert exists i :: 0 <= i < |a| && a[i] != b[i];
      var i :| 0 <= i < |a| && a[i] != b[i];
      assert At(a, i) != At(b, i);
    } else if |a| < |b| {
      AcceptsLonger(a, b);
    } else {
      AcceptsLonger(b, a);
      assert Accepts(a, b) <==> Accepts(b, a) by { PaddedSymmetric(a, b); }
    }
  }

  lemma PaddedSymmetric(a: seq<Byte>, b: seq<Byte>)
    ensures PaddedEqual(a, b, Longer(a, b)) <==> PaddedEqual(b, a, Longer(b, a))
  {
  }

  lemma AcceptsLonger(a: seq<Byte>, b: seq<Byte>)
    requires |a| < |b|
    ensures Accepts(a, b) <==> ZeroExtended(a, b)
  {
    assert |a| % 256 == |b| % 256 <==> (|b| - |a|) % 256 == 0;
    if PaddedEqual(a, b, |b|) {
      forall i | 0 <= i < |b| ensures b[i] == if i < |a| then a[i] else 0 { assert At(a, i) == At(b, i); }
    }
  }

  /** Header values hold no zero byte: on such inputs it decides equality. */
  lemma AcceptsIsEqualityWithoutZeros(a: seq<Byte>, b: seq<Byte>)
    requires 0 !in a && 0 !in b
    ensures Accepts(a, b) <==> a == b
  {
    AcceptsIsEqualityIff(a, b);
    if |a| < |b| { assert b[|a|] in b; }
    if |b| < |a| { assert a[|b|] in a; }
  }

  /** It does not on all inputs: nothing at all passes for 256 zero bytes. */
  lemma ZerosPassForEmpty()
    ensures Accepts([], seq(256, i => 0))
  {
  }

  // ---------- read_capped

  const MAX_CAPTURE_BYTES: nat := 8 * 1024 * 1024

  /** What successive reads of the pipe return; an empty read is the end. */
  datatype Read = Data(bytes: seq<Byte>) | Failed

  predicate Ends(r: Read)
  {
    r.Failed? || r.bytes == []
  }

  /** How many reads are taken, the one that ends the stream included. */
  function Taken(results: seq<Read>): (n: nat)
    ensures n <= |results|
  {
    if results == [] then 0 else if Ends(results[0]) then 1 else 1 + Taken(results[1..])
  }

  /** Everything the pipe delivers before its end or an error. */
  function Stream(results: seq<Read>): seq<Byte>
  {
    if results == [] || Ends(results[0]) then [] else results[0].bytes + Stream(results[1..])
  }

  function AllBytes(chunks: seq<seq<Byte>>): seq<Byte>
  {
    if chunks == [] then [] else chunks[0] + AllBytes(chunks[1..])
  }

  function AllReads(chunks: seq<seq<Byte>>): (results: seq<Read>)
    ensures |results| == |chunks| && forall i | 0 <= i < |chunks| :: results[i] == Data(chunks[i])
  {
    if chunks == [] then [] else [Data(chunks[0])] + AllReads(chunks[1..])
  }

  /** The stream is everything read before the first empty read or error. */
  lemma {:induction false} StreamIs(chunks: seq<seq<Byte>>, end: Read, rest: seq<Read>)
    requires (forall c | c in chunks :: c != []) && (end == Failed || end == Data([]))
    ensures Stream(AllReads(chunks) + [end] + rest) == AllBytes(chunks)
    ensures Taken(AllReads(chunks) + [end] + rest) == |chunks| + 1
  {
    var results := AllReads(chunks) + [end] + rest;
    if chunks == [] {
      assert results[0] == end;
    } else {
      assert results[0] == Data(chunks[0]) && results[1..] == AllReads(chunks[1..]) + [end] + rest;
      assert chunks[0] in chunks && forall c | c in chunks[1..] :: c in chunks;
      StreamIs(chunks[1..], end, rest);
    }
  }

  function Capped(s: seq<Byte>): seq<Byte>
  {
    if |s| <= MAX_CAPTURE_BYTES then s else s[..MAX_CAPTURE_BYTES]
  }

  /** However the stream is cut into reads, the capture is its first bytes up to the
      cap, and the pipe is drained to its end all the same. */
  method ReadCapped(results: seq<Read>) returns (buf: seq<Byte>, taken: nat)
    ensures buf == Capped(Stream(results))
    ensures buf <= Stream(results) && |buf| == if |Stream(results)| < 0x80_0000 then |Stream(results)| else 0x80_0000
    ensures taken == Taken(results)
  {
    buf, taken := [], 0;
    ghost var seen: seq<Byte> := [];
    while taken < |results|
      invariant taken <= |results| && buf == Capped(seen)
      invariant seen + Stream(results[taken..]) == Stream(results)
      invariant taken + Taken(results[taken..]) == Taken(results)
    {
      var r := results[taken];
      taken := taken + 1;
      assert results[taken - 1..][1..] == results[taken..];
      if Ends(r) { break; }
      var n := |r.bytes|;
      if |buf| < MAX_CAPTURE_BYTES {
        var room := MAX_CAPTURE_BYTES - |buf|;
        buf := buf + r.bytes[..if n < room then n else room];
      }
      seen := seen + r.bytes;
      assert seen + Stream(results[taken..]) == Stream(results);
      assert buf == Capped(seen);
    }
    assert seen == Stream(results);
  }
}
