/** The LZ4 block format, independently of how a block is produced or consumed: what a list of
    (literals, match) sequences means, how it is written, and a decoder that copies one byte at a time. */
module Lz4Format {
  import opened Bytes

  const MIN_MATCH := 4
  const MAX_OFFSET := 0xFFFF

  /** Copy `literals`, then `matchLen` bytes from `offset` bytes back. */
  datatype Sequence = Sequence(literals: seq<byte>, offset: nat, matchLen: nat)

  /** The naive LZ77 copy: each byte may be one that this same copy has just written. */
  function Copy(out: seq<byte>, offset: nat, n: nat): (r: seq<byte>)
    requires 0 < offset <= |out|
    ensures |r| == |out| + n
  {
    if n == 0 then out
    else
      var o := Copy(out, offset, n - 1);
      o + [o[|o| - offset]]
  }

  /** Anything that extends `out` by `n` bytes, each equal to the one `offset` back, is that copy. */
  lemma {:induction false} CopyUnique(out: seq<byte>, offset: nat, n: nat, r: seq<byte>)
    requires 0 < offset <= |out|
    requires |r| == |out| + n && r[..|out|] == out
    requires forall k :: |out| <= k < |r| ==> r[k] == r[k - offset]
    ensures r == Copy(out, offset, n)
  {
    if n == 0 {
      assert r == r[..|out|];
    } else {
      var prev := r[..|r| - 1];
      assert prev[..|out|] == out;
      CopyUnique(out, offset, n - 1, prev);
      assert r == prev + [r[|r| - 1]];
    }
  }

  /** The sequences can be executed in order: every match reaches back into data already produced. */
  predicate Executable(ss: seq<Sequence>)
    decreases |ss|, 0
  {
    ss == []
    || var s := ss[|ss| - 1];
       && Executable(ss[..|ss| - 1])
       && MIN_MATCH <= s.matchLen
       && 0 < s.offset <= MAX_OFFSET
       && s.offset <= |Expand(ss[..|ss| - 1])| + |s.literals|
  }

  /** The bytes that the sequences stand for. */
  function Expand(ss: seq<Sequence>): seq<byte>
    requires Executable(ss)
    decreases |ss|, 1
  {
    if ss == [] then []
    else
      var s := ss[|ss| - 1];
      Copy(Expand(ss[..|ss| - 1]) + s.literals, s.offset, s.matchLen)
  }

  function LengthBytes(rem: nat): seq<byte> {
    if rem >= 255 then [255] + LengthBytes(rem - 255) else [rem]
  }

  lemma {:induction false} LengthBytesSize(rem: nat)
    ensures 0 < 255 * |LengthBytes(rem)| <= rem + 255
  {
    if rem >= 255 {
      LengthBytesSize(rem - 255);
    }
  }

  /** The part of a length that does not fit its half of the token. */
  function Overflow(n: nat): seq<byte> {
    if n >= 15 then LengthBytes(n - 15) else []
  }

  function Token(literals: nat, match_: nat): byte {
    Min(literals, 15) * 16 + Min(match_, 15)
  }

  function SerializeLiterals(literals: seq<byte>, matchCode: nat): seq<byte> {
    [Token(|literals|, matchCode)] + (Overflow(|literals|) + literals)
  }

  function SerializeMatch(offset: u16, matchCode: nat): seq<byte> {
    Le16(offset) + Overflow(matchCode)
  }

  function Serialize(s: Sequence): seq<byte>
    requires MIN_MATCH <= s.matchLen && s.offset <= MAX_OFFSET
  {
    SerializeLiterals(s.literals, s.matchLen - MIN_MATCH) + SerializeMatch(s.offset, s.matchLen - MIN_MATCH)
  }

  function SerializeAll(ss: seq<Sequence>): seq<byte>
    requires Executable(ss)
  {
    if ss == [] then []
    else SerializeAll(ss[..|ss| - 1]) + Serialize(ss[|ss| - 1])
  }

  /** The closing literals-only sequence. */
  function SerializeLast(literals: seq<byte>): seq<byte> {
    SerializeLiterals(literals, 0)
  }

  /** "End of block conditions" of the LZ4 Block Format Description, for a block of `n` bytes: the last
      match starts at least 12 bytes before the end and the last 5 bytes are literals. */
  predicate EndConditions(ss: seq<Sequence>, n: nat)
    requires Executable(ss)
  {
    ss == [] || (|Expand(ss)| + 5 <= n && |Expand(ss)| - ss[|ss| - 1].matchLen + 12 <= n)
  }

  /** `wire` is the length header followed by a conforming block that stands for `x`. */
  predicate Encodes(x: seq<byte>, ss: seq<Sequence>, last: seq<byte>, wire: seq<byte>) {
    && Executable(ss)
    && EndConditions(ss, |x|)
    && Expand(ss) + last == x
    && wire == Le32(|x| % TWO_32) + SerializeAll(ss) + SerializeLast(last)
  }

  ghost predicate IsEncoding(x: seq<byte>, wire: seq<byte>) {
    exists ss, last :: Encodes(x, ss, last, wire)
  }

  // ─── The reference decoder ───────────────────────────────────────────────

  function ReadLength(p: seq<byte>): (r: Read<nat>)
    ensures r.Ok? ==> |r.value.1| < |p|
    ensures r.Err? ==> r.error == InvalidValue
  {
    if p == [] then Err(InvalidValue)
    else if p[0] != 255 then Ok((p[0], p[1..]))
    else
      var (v, rest) :- ReadLength(p[1..]);
      Ok((255 + v, rest))
  }

  /** A token half, extended by length bytes when it is 15. */
  function ReadExtended(half: nat, p: seq<byte>): (r: Read<nat>)
    ensures r.Ok? ==> |r.value.1| <= |p|
    ensures r.Err? ==> r.error == InvalidValue
  {
    if half != 15 then Ok((half, p))
    else
      var (v, rest) :- ReadLength(p);
      Ok((15 + v, rest))
  }

  /** A token and its literals: the output so far, the token's match half, and the unread bytes. */
  function TakeLiterals(p: seq<byte>, out: seq<byte>, cap: nat): (r: Result<(seq<byte>, byte, seq<byte>)>)
    requires p != []
    ensures r.Ok? ==> |r.value.2| < |p|
    ensures r.Ok? && |out| <= cap ==> |r.value.0| <= cap
    ensures r.Err? ==> r.error == InvalidValue
  {
    var (n, p1) :- ReadExtended(p[0] / 16, p[1..]);
    if n > |p1| || |out| + n > cap then Err(InvalidValue)
    else Ok((out + p1[..n], p[0] % 16, p1[n..]))
  }

  /** A match: the output after the copy, and the unread bytes. */
  function TakeMatch(half: nat, p: seq<byte>, out: seq<byte>, cap: nat): (r: Read<seq<byte>>)
    ensures r.Ok? ==> |r.value.1| < |p|
    ensures r.Ok? && |out| <= cap ==> |r.value.0| <= cap
    ensures r.Err? ==> r.error == InvalidValue
  {
    if |p| < 2 then Err(InvalidValue)
    else
      var offset := p[0] + 0x100 * (p[1] as int);
      if offset == 0 || offset > |out| then Err(InvalidValue)
      else
        var (m, rest) :- ReadExtended(half, p[2..]);
        if |out| + m + MIN_MATCH > cap then Err(InvalidValue)
        else Ok((Copy(out, offset, m + MIN_MATCH), rest))
  }

  /** Decode the sequences in `p` after `out` has been produced, never producing more than `cap` bytes. */
  function Blocks(p: seq<byte>, out: seq<byte>, cap: nat): (r: Result<seq<byte>>)
    ensures r.Ok? && |out| <= cap ==> |r.value| <= cap
    ensures r.Err? ==> r.error == InvalidValue
    decreases |p|
  {
    if p == [] then Ok(out)
    else
      var (out1, half, p1) :- TakeLiterals(p, out, cap);
      if p1 == [] then Ok(out1)
      else
        var (out2, p2) :- TakeMatch(half, p1, out1, cap);
        Blocks(p2, out2, cap)
  }

  function Decode(src: seq<byte>, expected: Option<nat>): (r: Result<seq<byte>>)
    ensures r.Ok? ==> |r.value| <= MAX_MESSAGE_BYTES && |src| >= 4 && |r.value| == U32At(src)
    ensures r.Ok? && expected.Some? ==> |r.value| == expected.value
  {
    if |src| < 4 then Err(InvalidValue)
    else
      var n := U32At(src);
      if n > MAX_MESSAGE_BYTES then Err(MessageTooLarge)
      else if expected.Some? && n != expected.value then Err(InvalidValue)
      else
        var out :- Blocks(src[4..], [], n);
        if |out| != n then Err(InvalidValue) else Ok(out)
  }

  // ─── Reading back what was written ───────────────────────────────────────

  lemma {:induction false} ReadLengthInverts(rem: nat, rest: seq<byte>)
    ensures ReadLength(LengthBytes(rem) + rest) == Ok((rem, rest))
  {
    if rem >= 255 {
      ReadLengthInverts(rem - 255, rest);
      assert (LengthBytes(rem) + rest)[1..] == LengthBytes(rem - 255) + rest;
    }
  }

  lemma ReadExtendedInverts(n: nat, rest: seq<byte>)
    ensures ReadExtended(Min(n, 15), Overflow(n) + rest) == Ok((n, rest))
  {
    if n >= 15 {
      ReadLengthInverts(n - 15, rest);
    } else {
      assert Overflow(n) + rest == rest;
    }
  }

  lemma TokenHalves(literals: nat, match_: nat)
    ensures Token(literals, match_) / 16 == Min(literals, 15)
    ensures Token(literals, match_) % 16 == Min(match_, 15)
  {
  }

  lemma Assoc(a: seq<byte>, b: seq<byte>, c: seq<byte>)
    ensures (a + b) + c == a + (b + c)
  {
  }

  lemma TakeLiteralsInverts(lits: seq<byte>, m: nat, rest: seq<byte>, out: seq<byte>, cap: nat)
    requires |out| + |lits| <= cap
    ensures TakeLiterals(SerializeLiterals(lits, m) + rest, out, cap) == Ok((out + lits, Min(m, 15), rest))
  {
    var p := SerializeLiterals(lits, m) + rest;
    assert p[1..] == Overflow(|lits|) + (lits + rest) by {
      Assoc(Overflow(|lits|), lits, rest);
      Assoc([Token(|lits|, m)], Overflow(|lits|) + lits, rest);
    }
    TokenHalves(|lits|, m);
    ReadExtendedInverts(|lits|, lits + rest);
    assert (lits + rest)[..|lits|] == lits && (lits + rest)[|lits|..] == rest;
  }

  lemma TakeMatchInverts(offset: u16, m: nat, rest: seq<byte>, out: seq<byte>, cap: nat)
    requires 0 < offset <= |out| && |out| + m + MIN_MATCH <= cap
    ensures TakeMatch(Min(m, 15), SerializeMatch(offset, m) + rest, out, cap)
         == Ok((Copy(out, offset, m + MIN_MATCH), rest))
  {
    hide ReadExtended, Overflow, Copy;
    var p := SerializeMatch(offset, m) + rest;
    assert p == Le16(offset) + (Overflow(m) + rest) by {
      Assoc(Le16(offset), Overflow(m), rest);
    }
    assert p[2..] == Overflow(m) + rest;
    assert p[0] == offset % 0x100 && p[1] == offset / 0x100;
    ReadExtendedInverts(m, rest);
  }

  lemma BlocksStep(p: seq<byte>, out: seq<byte>, cap: nat, out1: seq<byte>, half: byte, p1: seq<byte>,
                   out2: seq<byte>, p2: seq<byte>)
    requires p != [] && TakeLiterals(p, out, cap) == Ok((out1, half, p1))
    requires p1 != [] && TakeMatch(half, p1, out1, cap) == Ok((out2, p2))
    ensures Blocks(p, out, cap) == Blocks(p2, out2, cap)
  {
  }

  lemma BlocksOne(s: Sequence, rest: seq<byte>, out: seq<byte>, cap: nat)
    requires MIN_MATCH <= s.matchLen && 0 < s.offset <= MAX_OFFSET && s.offset <= |out| + |s.literals|
    requires |out| + |s.literals| + s.matchLen <= cap
    ensures Blocks(Serialize(s) + rest, out, cap)
         == Blocks(rest, Copy(out + s.literals, s.offset, s.matchLen), cap)
  {
    var m := s.matchLen - MIN_MATCH;
    var head, tail := SerializeLiterals(s.literals, m), SerializeMatch(s.offset, m);
    assert Serialize(s) + rest == head + (tail + rest) by {
      Assoc(head, tail, rest);
    }
    TakeLiteralsInverts(s.literals, m, tail + rest, out, cap);
    TakeMatchInverts(s.offset, m, rest, out + s.literals, cap);
    BlocksStep(head + (tail + rest), out, cap, out + s.literals, Min(m, 15), tail + rest,
               Copy(out + s.literals, s.offset, s.matchLen), rest);
  }

  lemma {:induction false} ExpandGrows(ss: seq<Sequence>)
    requires Executable(ss) && ss != []
    ensures |Expand(ss)| == |Expand(ss[..|ss| - 1])| + |ss[|ss| - 1].literals| + ss[|ss| - 1].matchLen
  {
  }

  lemma {:induction false} BlocksAll(ss: seq<Sequence>, rest: seq<byte>, cap: nat)
    requires Executable(ss) && |Expand(ss)| <= cap
    ensures Blocks(SerializeAll(ss) + rest, [], cap) == Blocks(rest, Expand(ss), cap)
  {
    hide Blocks, Serialize, Copy;
    if ss == [] {
      assert SerializeAll(ss) + rest == rest;
    } else {
      var init, s := ss[..|ss| - 1], ss[|ss| - 1];
      ExpandGrows(ss);
      Assoc(SerializeAll(init), Serialize(s), rest);
      BlocksAll(init, Serialize(s) + rest, cap);
      BlocksOne(s, rest, Expand(init), cap);
    }
  }

  lemma BlocksLast(last: seq<byte>, out: seq<byte>, cap: nat)
    requires |out| + |last| <= cap
    ensures Blocks(SerializeLast(last), out, cap) == Ok(out + last)
  {
    assert SerializeLast(last) + [] == SerializeLast(last);
    TakeLiteralsInverts(last, 0, [], out, cap);
  }

  lemma HeaderParts(n: u32, body: seq<byte>)
    ensures |Le32(n) + body| >= 4 && U32At(Le32(n) + body) == n && (Le32(n) + body)[4..] == body
  {
    hide Le32, U32At;
    U32AtLe32(n, body);
  }

  lemma Header(x: seq<byte>, ss: seq<Sequence>, last: seq<byte>, wire: seq<byte>)
    requires Encodes(x, ss, last, wire) && |x| < TWO_32
    ensures |wire| >= 4 && U32At(wire) == |x| && wire[4..] == SerializeAll(ss) + SerializeLast(last)
  {
    hide SerializeAll, SerializeLast, Expand, Executable, EndConditions, Le32, U32At;
    Assoc(Le32(|x|), SerializeAll(ss), SerializeLast(last));
    HeaderParts(|x|, SerializeAll(ss) + SerializeLast(last));
  }

  /** Any conforming block decodes to what it stands for: the encoder may choose its matches freely. */
  lemma DecodeInverts(x: seq<byte>, ss: seq<Sequence>, last: seq<byte>, wire: seq<byte>)
    requires Encodes(x, ss, last, wire) && |x| <= MAX_MESSAGE_BYTES
    ensures Decode(wire, None) == Ok(x) == Decode(wire, Some(|x|))
  {
    hide SerializeAll, SerializeLast, Expand, Executable, Blocks;
    Header(x, ss, last, wire);
    BlocksAll(ss, SerializeLast(last), |x|);
    BlocksLast(last, Expand(ss), |x|);
  }

  /** LZ4 round trip, with its exact limit: an encoding of `x` decodes back to `x`, with or without the
      length announced, if and only if `x` fits the per-message cap. */
  lemma RoundTrip(x: seq<byte>, wire: seq<byte>)
    requires IsEncoding(x, wire)
    ensures Decode(wire, Some(|x|)) == Ok(x) <==> |x| <= MAX_MESSAGE_BYTES
    ensures Decode(wire, None) == Ok(x) <==> |x| <= MAX_MESSAGE_BYTES
  {
    if |x| <= MAX_MESSAGE_BYTES {
      var ss, last :| Encodes(x, ss, last, wire);
      DecodeInverts(x, ss, last, wire);
    }
  }

  /** An encoding of something beyond the cap is refused before anything is decoded. */
  lemma HeaderTooLarge(x: seq<byte>, wire: seq<byte>)
    requires IsEncoding(x, wire) && MAX_MESSAGE_BYTES < |x| < TWO_32
    ensures Decode(wire, None) == Err(MessageTooLarge) == Decode(wire, Some(|x|))
  {
    var ss, last :| Encodes(x, ss, last, wire);
    Header(x, ss, last, wire);
  }

  /** Appending one sequence to an executable list whose meaning is known. */
  lemma Extend(ss: seq<Sequence>, s: Sequence)
    requires Executable(ss) && MIN_MATCH <= s.matchLen && 0 < s.offset <= MAX_OFFSET
    requires s.offset <= |Expand(ss)| + |s.literals|
    ensures Executable(ss + [s])
    ensures Expand(ss + [s]) == Copy(Expand(ss) + s.literals, s.offset, s.matchLen)
    ensures SerializeAll(ss + [s]) == SerializeAll(ss) + Serialize(s)
  {
    assert (ss + [s])[..|ss|] == ss;
  }

  // ─── What a block looks like, and which ones are accepted ────────────────

  /** The bytes of a length beyond the 15 that a token half can hold. */
  function Extra(n: nat): seq<byte> {
    if n < 15 then [] else seq((n - 15) / 255, _ => 255) + [(n - 15) % 255]
  }

  lemma {:induction false} LengthBytesAre(rem: nat)
    ensures LengthBytes(rem) == seq(rem / 255, _ => 255) + [rem % 255]
  {
    if rem >= 255 {
      LengthBytesAre(rem - 255);
      assert rem / 255 == (rem - 255) / 255 + 1 && rem % 255 == (rem - 255) % 255;
      assert seq(rem / 255, _ => 255) == [255] + seq((rem - 255) / 255, _ => 255);
    }
  }

  lemma OverflowIs(n: nat)
    ensures Overflow(n) == Extra(n)
  {
    if n >= 15 {
      LengthBytesAre(n - 15);
    }
  }

  /** A sequence is a token with the number of literals in its upper half and the match length less four in its lower,
      more length bytes, the literals, the offset with its low byte first, more length bytes. */
  lemma SequenceLayout(s: Sequence)
    requires 4 <= s.matchLen && s.offset <= 0xFFFF
    ensures var (n, m) := (|s.literals|, s.matchLen - 4);
            Serialize(s) == [(if n < 15 then n else 15) * 16 + (if m < 15 then m else 15)] + Extra(n) + s.literals
                            + [s.offset % 0x100, s.offset / 0x100] + Extra(m)
  {
    hide Overflow, Extra;
    OverflowIs(|s.literals|);
    OverflowIs(s.matchLen - 4);
  }

  lemma {:induction false} ReadLengthOnly(p: seq<byte>)
    requires ReadLength(p).Ok?
    ensures p == LengthBytes(ReadLength(p).value.0) + ReadLength(p).value.1
  {
    assert p == [p[0]] + p[1..];
    if p[0] == 255 {
      ReadLengthOnly(p[1..]);
    }
  }

  lemma ReadExtendedOnly(half: nat, p: seq<byte>)
    requires half < 16 && ReadExtended(half, p).Ok?
    ensures var (n, rest) := ReadExtended(half, p).value;
            half == Min(n, 15) && p == Overflow(n) + rest
  {
    if half == 15 {
      ReadLengthOnly(p);
    }
  }

  lemma TakeLiteralsOnly(p: seq<byte>, out: seq<byte>, cap: nat) returns (lits: seq<byte>)
    requires p != [] && TakeLiterals(p, out, cap).Ok?
    ensures var (out1, half, rest) := TakeLiterals(p, out, cap).value;
            half < 16 && out1 == out + lits && |out1| <= cap && p == SerializeLiterals(lits, half) + rest
  {
    hide ReadExtended, Overflow;
    var half := p[0] % 16;
    ReadExtendedOnly(p[0] / 16, p[1..]);
    var (n, p1) := ReadExtended(p[0] / 16, p[1..]).value;
    lits := p1[..n];
    assert p[0] == Token(n, half);
    assert p == [p[0]] + (Overflow(n) + (lits + p1[n..]));
    Assoc(Overflow(n), lits, p1[n..]);
    Assoc([p[0]], Overflow(n) + lits, p1[n..]);
  }

  lemma TakeMatchOnly(half: nat, p: seq<byte>, out: seq<byte>, cap: nat) returns (offset: u16, m: nat)
    requires half < 16 && TakeMatch(half, p, out, cap).Ok?
    ensures var (out1, rest) := TakeMatch(half, p, out, cap).value;
            && half == Min(m, 15) && 0 < offset <= |out| && out1 == Copy(out, offset, m + 4) && |out1| <= cap
            && p == SerializeMatch(offset, m) + rest
  {
    hide ReadExtended, Overflow, Copy;
    offset := p[0] + 0x100 * (p[1] as int);
    ReadExtendedOnly(half, p[2..]);
    var rest;
    m, rest := ReadExtended(half, p[2..]).value.0, ReadExtended(half, p[2..]).value.1;
    assert Le16(offset) == [p[0], p[1]];
    assert p == [p[0], p[1]] + (Overflow(m) + rest);
    Assoc([p[0], p[1]], Overflow(m), rest);
  }

  /** The lower half of the last token is not used. */
  predicate EndsInLiterals(p: seq<byte>, ss: seq<Sequence>, x: seq<byte>, lits: seq<byte>, half: nat)
    requires Executable(ss)
  {
    half < 16 && p == SerializeAll(ss) + SerializeLiterals(lits, half) && x == Expand(ss) + lits
  }

  /** `p` is a block that stands for `x`: sequences, and after them possibly literals alone. */
  ghost predicate IsBlock(p: seq<byte>, ss: seq<Sequence>, x: seq<byte>) {
    Executable(ss) &&
    ((p == SerializeAll(ss) && x == Expand(ss)) || exists lits, half: nat :: EndsInLiterals(p, ss, x, lits, half))
  }

  lemma HalfLiterals(lits: seq<byte>, half: nat, m: nat)
    requires half == Min(m, 15)
    ensures SerializeLiterals(lits, half) == SerializeLiterals(lits, m)
  {
  }

  lemma {:induction false} BlocksOnly(ss: seq<Sequence>, p: seq<byte>, cap: nat) returns (tt: seq<Sequence>)
    requires Executable(ss) && |Expand(ss)| <= cap && Blocks(p, Expand(ss), cap).Ok?
    ensures IsBlock(SerializeAll(ss) + p, tt, Blocks(p, Expand(ss), cap).value)
    decreases |p|
  {
    hide TakeLiterals, TakeMatch, SerializeLiterals, SerializeMatch, Copy, Executable, Expand, SerializeAll;
    var out := Expand(ss);
    if p == [] {
      assert SerializeAll(ss) + p == SerializeAll(ss);
      return ss;
    }
    var lits := TakeLiteralsOnly(p, out, cap);
    var (out1, half, p1) := TakeLiterals(p, out, cap).value;
    if p1 == [] {
      assert SerializeLiterals(lits, half) + [] == SerializeLiterals(lits, half);
      assert EndsInLiterals(SerializeAll(ss) + p, ss, out1, lits, half);
      return ss;
    }
    var offset, m := TakeMatchOnly(half, p1, out1, cap);
    var p2 := TakeMatch(half, p1, out1, cap).value.1;
    var s := Sequence(lits, offset, m + 4);
    HalfLiterals(lits, half, m);
    Extend(ss, s);
    assert p == Serialize(s) + p2 by {
      Assoc(SerializeLiterals(lits, m), SerializeMatch(offset, m), p2);
    }
    Assoc(SerializeAll(ss), Serialize(s), p2);
    tt := BlocksOnly(ss + [s], p2, cap);
  }

  lemma BlockDecodes(p: seq<byte>, ss: seq<Sequence>, x: seq<byte>)
    requires IsBlock(p, ss, x)
    ensures Blocks(p, [], |x|) == Ok(x)
  {
    hide SerializeAll, Expand, Executable, SerializeLiterals;
    if p == SerializeAll(ss) && x == Expand(ss) {
      assert p + [] == p;
      BlocksAll(ss, [], |x|);
    } else {
      var lits, half: nat :| EndsInLiterals(p, ss, x, lits, half);
      BlocksAll(ss, SerializeLiterals(lits, half), |x|);
      TakeLiteralsInverts(lits, half, [], Expand(ss), |x|);
      assert SerializeLiterals(lits, half) + [] == SerializeLiterals(lits, half);
    }
  }

  lemma LengthIs(wire: seq<byte>, n: u32)
    requires |wire| >= 4
    ensures U32At(wire) == n
       <==> wire[..4] == [n % 0x100, n / 0x100 % 0x100, n / 0x1_0000 % 0x100, n / 0x100_0000]
  {
    U32AtLe32(n, wire[4..]);
    Le32U32At(wire);
    if wire[..4] == Le32(n) {
      assert wire == Le32(n) + wire[4..];
    }
  }

  /** The decoder accepts exactly the blocks: a length of at most 16 MiB, low byte first, followed by sequences that can
      be executed, possibly ending in literals, and that stand for as many bytes. It returns those bytes. */
  lemma DecodeExactly(wire: seq<byte>, x: seq<byte>)
    ensures Decode(wire, None) == Ok(x)
       <==> && |wire| >= 4 && |x| <= 0x100_0000
            && wire[..4] == [|x| % 0x100, |x| / 0x100 % 0x100, |x| / 0x1_0000 % 0x100, |x| / 0x100_0000]
            && exists ss :: IsBlock(wire[4..], ss, x)
    ensures forall n: nat :: Decode(wire, Some(n)) == Ok(x) <==> n == |x| && Decode(wire, None) == Ok(x)
  {
    hide Blocks, IsBlock;
    if Decode(wire, None) == Ok(x) {
      LengthIs(wire, |x|);
      var ss := BlocksOnly([], wire[4..], |x|);
      assert SerializeAll([]) + wire[4..] == wire[4..];
    }
    if |wire| >= 4 && |x| <= 0x100_0000
       && wire[..4] == [|x| % 0x100, |x| / 0x100 % 0x100, |x| / 0x1_0000 % 0x100, |x| / 0x100_0000] {
      LengthIs(wire, |x|);
      if ss :| IsBlock(wire[4..], ss, x) {
        BlockDecodes(wire[4..], ss, x);
      }
    }
  }

  /** Everything else is refused: as too large when the length exceeds 16 MiB, else as invalid. */
  lemma DecodeErrors(wire: seq<byte>, expected: Option<nat>)
    requires Decode(wire, expected).Err?
    ensures Decode(wire, expected).error
         == if |wire| >= 4 && (wire[3] > 1 || (wire[3] == 1 && !(wire[0] == wire[1] == wire[2] == 0))) then
              MessageTooLarge
            else InvalidValue
  {
    hide Blocks;
  }

  // ─── Size ────────────────────────────────────────────────────────────────

  lemma OverflowSize(n: nat)
    ensures 255 * |Overflow(n)| <= n + 240 && |Overflow(n)| <= n
  {
    if n >= 15 {
      LengthBytesSize(n - 15);
    }
  }

  lemma SequenceSize(s: Sequence)
    requires MIN_MATCH <= s.matchLen && s.offset <= MAX_OFFSET
    ensures 255 * |Serialize(s)| <= 256 * (|s.literals| + s.matchLen)
  {
    OverflowSize(|s.literals|);
    OverflowSize(s.matchLen - MIN_MATCH);
  }

  lemma {:induction false} SerializedSize(ss: seq<Sequence>)
    requires Executable(ss)
    ensures 255 * |SerializeAll(ss)| <= 256 * |Expand(ss)|
  {
    if ss != [] {
      ExpandGrows(ss);
      SerializedSize(ss[..|ss| - 1]);
      SequenceSize(ss[|ss| - 1]);
    }
  }

  /** An encoding of `n` bytes, header included, takes at most `n + n/255 + 6` bytes. */
  lemma EncodingSize(x: seq<byte>, wire: seq<byte>)
    requires IsEncoding(x, wire)
    ensures |wire| <= |x| + |x| / 255 + 6
  {
    var ss, last :| Encodes(x, ss, last, wire);
    SerializedSize(ss);
    OverflowSize(|last|);
    assert 255 * |wire| <= 256 * |x| + 1515;
  }
}
