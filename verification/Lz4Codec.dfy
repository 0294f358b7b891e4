/** The hand-written LZ4 compressor and decompressor, proved against `Lz4Format`. */
module Lz4Codec {
  import opened Bytes
  import opened Lz4Format
  import opened WordCompare

  const HASH_ENTRIES := 4096

  /** `v.wrapping_mul(2654435761) >> 20` on 32 bits. */
  function Hash(v: u32): (h: nat)
    ensures h < HASH_ENTRIES
  {
    v * 2654435761 % TWO_32 / 0x10_0000
  }

  /** The upper twelve bits of the low 32 bits of the product. */
  lemma HashBits(v: u32) returns (high: nat, low: nat)
    ensures low < 0x10_0000 && v * 0x9E37_79B1 == high * 0x1_0000_0000 + Hash(v) * 0x10_0000 + low
  {
    var p := v * 0x9E37_79B1;
    high, low := p / 0x1_0000_0000, p % 0x1_0000_0000 % 0x10_0000;
  }

  method WriteLz4Len(out0: seq<byte>, rem0: nat) returns (out: seq<byte>)
    ensures out == out0 + LengthBytes(rem0)
  {
    out := out0;
    var rem := rem0;
    while rem >= 255
      invariant 0 <= rem
      invariant out + LengthBytes(rem) == out0 + LengthBytes(rem0)
    {
      assert out + LengthBytes(rem) == (out + [255]) + LengthBytes(rem - 255);
      out := out + [255];
      rem := rem - 255;
    }
    out := out + [rem];
  }

  /** Token, literals and nothing else of one sequence. */
  method WriteLiterals(out0: seq<byte>, lits: seq<byte>, matchCode: nat) returns (out: seq<byte>)
    ensures out == out0 + SerializeLiterals(lits, matchCode)
  {
    out := out0 + [Min(|lits|, 15) * 16 + Min(matchCode, 15)];
    if |lits| >= 15 {
      out := WriteLz4Len(out, |lits| - 15);
    }
    out := out + lits;
  }

  /** Data whose bytes repeat with period four: a run of equal BGRA pixels. */
  ghost predicate Repeats4(x: seq<byte>) {
    forall j, k :: 0 <= j < k < |x| && k - j == 4 ==> x[j] == x[k]
  }

  lemma {:induction false} RepeatsFrom(x: seq<byte>, ip: nat, d: nat, k: nat)
    requires Repeats4(x) && 0 < d <= ip && ip + 4 <= |x|
    requires x[ip..ip + 4] == x[ip - d..ip - d + 4]
    requires ip <= k < |x|
    ensures x[k] == x[k - d]
    decreases k
  {
    if k < ip + 4 {
      assert x[k] == x[ip..ip + 4][k - ip] == x[ip - d..ip - d + 4][k - ip];
    } else {
      RepeatsFrom(x, ip, d, k - 4);
    }
  }

  /** In such data a match, once found, runs up to the match limit. */
  lemma MatchRunsToLimit(x: seq<byte>, ip: nat, mpos: nat, limit: nat, n: nat)
    requires Repeats4(x) && mpos < ip && ip + 4 <= limit <= |x|
    requires x[ip..ip + 4] == x[mpos..mpos + 4]
    requires IsCommonPrefix(x[mpos + 4..limit], x[ip + 4..limit], n)
    ensures ip + 4 + n == limit
  {
    if n < limit - ip - 4 {
      RepeatsFrom(x, ip, ip - mpos, ip + 4 + n);
    }
  }

  /** The match found at `ip` reproduces the input, overlapping or not. */
  lemma MatchCopies(x: seq<byte>, ip: nat, mpos: nat, limit: nat, n: nat)
    requires mpos < ip && ip + 4 <= limit <= |x|
    requires x[ip..ip + 4] == x[mpos..mpos + 4]
    requires IsCommonPrefix(x[mpos + 4..limit], x[ip + 4..limit], n)
    ensures ip + 4 + n <= limit
    ensures Copy(x[..ip], ip - mpos, 4 + n) == x[..ip + 4 + n]
  {
    var r := x[..ip + 4 + n];
    forall k | ip <= k < ip + 4 + n
      ensures r[k] == r[k - (ip - mpos)]
    {
      if k < ip + 4 {
        assert r[k] == x[ip..ip + 4][k - ip] == x[mpos..mpos + 4][k - ip];
      } else {
        assert r[k] == x[ip + 4..limit][..n][k - ip - 4] == x[mpos + 4..limit][..n][k - ip - 4];
      }
    }
    assert r[..ip] == x[..ip];
    CopyUnique(x[..ip], ip - mpos, 4 + n, r);
  }

  /** The four bytes at `ip` occur at `c` already, not too far back. */
  predicate Repeats(input: seq<byte>, ip: nat, c: int)
    requires ip + 4 <= |input|
  {
    0 <= c < ip <= c + 0xFFFF && input[c..c + 4] == input[ip..ip + 4]
  }

  /** The candidate the compressor tries at `ip`: a one-byte run, a four-byte (pixel) run, else the hash entry. */
  method FindMatch(input: seq<byte>, ip: nat, refPos: nat) returns (mpos: Option<nat>)
    requires ip + 4 <= |input|
    ensures mpos.Some? ==> mpos.value < ip && ip - mpos.value <= MAX_OFFSET
                           && input[ip..ip + 4] == input[mpos.value..mpos.value + 4]
    ensures if Repeats(input, ip, ip - 1) then mpos == Some(ip - 1)
            else if Repeats(input, ip, ip - 4) then mpos == Some(ip - 4)
            else if Repeats(input, ip, refPos) then mpos == Some(refPos)
            else mpos == None
    ensures ip >= 4 && Repeats4(input) ==> mpos.Some?
  {
    assert ip >= 4 && Repeats4(input) ==> input[ip..ip + 4] == input[ip - 4..ip];
    if ip >= 1 && input[ip..ip + 4] == input[ip - 1..ip + 3] {
      return Some(ip - 1);
    } else if ip >= 4 && input[ip..ip + 4] == input[ip - 4..ip] {
      return Some(ip - 4);
    } else if ip > refPos && ip - refPos <= MAX_OFFSET && input[refPos..refPos + 4] == input[ip..ip + 4] {
      return Some(refPos);
    }
    return None;
  }

  /** Four-periodic input: the compressor is still before the first match, or past the only one. */
  ghost predicate FlatProgress(input: seq<byte>, ss: seq<Sequence>, anchor: nat, ip: nat) {
    if ss == [] then anchor == 0 && ip <= 4
    else |ss| == 1 && |ss[0].literals| <= 4 && ip == anchor == |input| - 5
  }

  lemma FlatMatch(input: seq<byte>, ss: seq<Sequence>, anchor: nat, ip: nat, mpos: nat, extra: nat)
    requires Repeats4(input) && FlatProgress(input, ss, anchor, ip)
    requires anchor <= ip && ip + 12 <= |input| && mpos < ip
    requires input[ip..ip + 4] == input[mpos..mpos + 4]
    requires IsCommonPrefix(input[mpos + 4..|input| - 5], input[ip + 4..|input| - 5], extra)
    ensures FlatProgress(input, ss + [Sequence(input[anchor..ip], ip - mpos, 4 + extra)],
                         ip + 4 + extra, ip + 4 + extra)
  {
    MatchRunsToLimit(input, ip, mpos, |input| - 5, extra);
  }

  /** A whole sequence; the offset is cast to 16 bits. */
  method WriteSequence(out0: seq<byte>, lits: seq<byte>, offset: nat, matchLen: nat) returns (out: seq<byte>)
    requires MIN_MATCH <= matchLen && offset <= MAX_OFFSET
    ensures out == out0 + Serialize(Sequence(lits, offset, matchLen))
  {
    hide SerializeLiterals, LengthBytes, Le16;
    out := WriteLiterals(out0, lits, matchLen - MIN_MATCH);
    out := out + Le16(offset % 0x1_0000);
    if matchLen - MIN_MATCH >= 15 {
      out := WriteLz4Len(out, matchLen - MIN_MATCH - 15);
    }
  }

  /** The loop invariant: `ss` has been written and stands for the input up to `anchor`. */
  ghost predicate Written(input: seq<byte>, out0: seq<byte>, out: seq<byte>, ss: seq<Sequence>, anchor: nat) {
    && anchor + 5 <= |input|
    && Executable(ss) && EndConditions(ss, |input|)
    && Expand(ss) == input[..anchor]
    && out == out0 + Le32(|input| % TWO_32) + SerializeAll(ss)
  }

  /** Appending a sequence whose copy yields the next `matchLen` input bytes keeps the invariant. */
  lemma Emit(input: seq<byte>, out0: seq<byte>, out: seq<byte>, ss: seq<Sequence>, anchor: nat, s: Sequence, ip: nat)
    requires Written(input, out0, out, ss, anchor)
    requires anchor <= ip && ip + 12 <= |input| && s.literals == input[anchor..ip]
    requires 0 < s.offset <= ip && s.offset <= MAX_OFFSET
    requires MIN_MATCH <= s.matchLen && ip + s.matchLen + 5 <= |input|
    requires Copy(input[..ip], s.offset, s.matchLen) == input[..ip + s.matchLen]
    ensures Written(input, out0, out + Serialize(s), ss + [s], ip + s.matchLen)
  {
    assert input[..anchor] + s.literals == input[..ip];
    var tt := ss + [s];
    assert tt[|ss|] == s && |tt| == |ss| + 1;
    assert && Executable(tt)
           && Expand(tt) == input[..ip + s.matchLen]
           && SerializeAll(tt) == SerializeAll(ss) + Serialize(s) by {
      Extend(ss, s);
    }
    Assoc(out0 + Le32(|input| % TWO_32), SerializeAll(ss), Serialize(s));
  }

  lemma EmitMatch(input: seq<byte>, out0: seq<byte>, out: seq<byte>, ss: seq<Sequence>, anchor: nat,
                  ip: nat, mpos: nat, extra: nat, s: Sequence)
    requires Written(input, out0, out, ss, anchor)
    requires anchor <= ip && ip + 12 <= |input| && mpos < ip && ip - mpos <= MAX_OFFSET
    requires input[ip..ip + 4] == input[mpos..mpos + 4]
    requires IsCommonPrefix(input[mpos + 4..|input| - 5], input[ip + 4..|input| - 5], extra)
    requires s == Sequence(input[anchor..ip], ip - mpos, 4 + extra)
    ensures Written(input, out0, out + Serialize(s), ss + [s], ip + 4 + extra)
    ensures Repeats4(input) && FlatProgress(input, ss, anchor, ip)
            ==> FlatProgress(input, ss + [s], ip + 4 + extra, ip + 4 + extra)
  {
    MatchCopies(input, ip, mpos, |input| - 5, extra);
    assert Written(input, out0, out + Serialize(s), ss + [s], ip + 4 + extra) by {
      Emit(input, out0, out, ss, anchor, s, ip);
    }
    if Repeats4(input) && FlatProgress(input, ss, anchor, ip) {
      FlatMatch(input, ss, anchor, ip, mpos, extra);
    }
  }

  /** One sequence: extend the match at `mpos`, then write literals, offset and length. */
  method EncodeMatch(input: seq<byte>, ghost out0: seq<byte>, out1: seq<byte>, ghost ss: seq<Sequence>,
                     anchor: nat, ip: nat, mpos: nat)
    returns (out: seq<byte>, next: nat, ghost tt: seq<Sequence>)
    requires Written(input, out0, out1, ss, anchor)
    requires anchor <= ip && ip + 12 <= |input| && mpos < ip && ip - mpos <= MAX_OFFSET
    requires input[ip..ip + 4] == input[mpos..mpos + 4]
    ensures ip + 4 <= next <= |input| && Written(input, out0, out, tt, next)
    ensures Repeats4(input) && FlatProgress(input, ss, anchor, ip) ==> FlatProgress(input, tt, next, next)
  {
    var extra := CommonPrefixLen(input[mpos + 4..|input| - 5], input[ip + 4..|input| - 5]);
    var lits, offset := input[anchor..ip], ip - mpos;
    next := ip + 4 + extra;
    tt := ss + [Sequence(lits, offset, 4 + extra)];
    EmitMatch(input, out0, out1, ss, anchor, ip, mpos, extra, Sequence(lits, offset, 4 + extra));
    out := WriteSequence(out1, lits, offset, 4 + extra);
  }

  lemma NothingWritten(input: seq<byte>, out0: seq<byte>)
    requires |input| >= 5
    ensures Written(input, out0, out0 + Le32(|input| % TWO_32), [], 0) && FlatProgress(input, [], 0, 0)
  {
    hide Le32;
  }

  lemma FlatSkip(input: seq<byte>, ss: seq<Sequence>, anchor: nat, ip: nat)
    requires anchor <= ip && ip + 12 <= |input|
    requires Repeats4(input) ==> FlatProgress(input, ss, anchor, ip) && ip < 4
    ensures Repeats4(input) ==> FlatProgress(input, ss, anchor, ip + 1 + (ip - anchor) / 32)
  {
    hide Repeats4;
  }

  lemma FlatSize(input: seq<byte>, out0: seq<byte>, out: seq<byte>, ss: seq<Sequence>, anchor: nat, ip: nat)
    requires Written(input, out0, out, ss, anchor)
    requires FlatProgress(input, ss, anchor, ip) && 13 <= |input| < ip + 12
    ensures |Le32(|input| % TWO_32) + SerializeAll(ss) + SerializeLast(input[anchor..])| <= |input| / 255 + 21
  {
    OverflowSize(|input| - anchor);
    if ss != [] {
      assert ss[..0] == [] && SerializeAll(ss) == [] + Serialize(ss[0]);
      ExpandGrows(ss);
      OverflowSize(|ss[0].literals|);
      OverflowSize(ss[0].matchLen - MIN_MATCH);
    }
  }

  /** The remaining input closes the block as literals. */
  lemma Finish(input: seq<byte>, out0: seq<byte>, out: seq<byte>, ss: seq<Sequence>, anchor: nat, ip: nat)
    returns (wire: seq<byte>)
    requires Written(input, out0, out, ss, anchor) && 13 <= |input| < ip + 12
    ensures anchor <= |input| && out + SerializeLast(input[anchor..]) == out0 + wire && IsEncoding(input, wire)
    ensures FlatProgress(input, ss, anchor, ip) ==> |wire| <= |input| / 255 + 21
  {
    var header, body, last := Le32(|input| % TWO_32), SerializeAll(ss), input[anchor..];
    wire := header + body + SerializeLast(last);
    assert Expand(ss) + last == input;
    assert Encodes(input, ss, last, wire);
    Assoc(out0, header, body);
    Assoc(out0, header + body, SerializeLast(last));
    if FlatProgress(input, ss, anchor, ip) {
      FlatSize(input, out0, out, ss, anchor, ip);
    }
  }

  /** Inputs under 13 bytes are stored as literals. */
  method EncodeShort(input: seq<byte>, out0: seq<byte>) returns (out: seq<byte>, ghost wire: seq<byte>)
    requires |input| < 13
    ensures out == out0 + wire && IsEncoding(input, wire) && |wire| == |input| + 5
  {
    out := out0 + Le32(|input| % TWO_32);
    out := out + [|input| * 16] + input;
    wire := Le32(|input| % TWO_32) + SerializeAll([]) + SerializeLast(input);
    assert Encodes(input, [], input, wire);
  }

  method EncodeLong(input: seq<byte>, out0: seq<byte>) returns (out: seq<byte>, ghost wire: seq<byte>)
    requires |input| >= 13
    ensures out == out0 + wire && IsEncoding(input, wire)
    ensures Repeats4(input) ==> |wire| <= |input| / 255 + 21
  {
    hide Repeats, Repeats4, Written, FlatProgress, Hash, U32At, Le32, IsEncoding;
    out := out0 + Le32(|input| % TWO_32);
    NothingWritten(input, out0);
    var hashTable := new nat[HASH_ENTRIES](_ => 0);
    var anchor: nat := 0;
    var ip: nat := 0;
    var limit := |input| - 12;
    ghost var ss: seq<Sequence> := [];

    while ip <= limit
      invariant anchor <= ip && anchor <= |input| && Written(input, out0, out, ss, anchor)
      invariant Repeats4(input) ==> FlatProgress(input, ss, anchor, ip)
      decreases |input| - ip
    {
      var h := Hash(U32At(input[ip..ip + 4]));
      var refPos := hashTable[h];
      hashTable[h] := ip % TWO_32;

      var candidate := FindMatch(input, ip, refPos);
      if candidate.None? {
        FlatSkip(input, ss, anchor, ip);
        ip := ip + 1 + (ip - anchor) / 32;
      } else {
        out, ip, ss := EncodeMatch(input, out0, out, ss, anchor, ip, candidate.value);
        anchor := ip;
        if ip <= limit {
          hashTable[Hash(U32At(input[ip - 2..ip + 2]))] := (ip - 2) % TWO_32;
        }
      }
    }

    wire := Finish(input, out0, out, ss, anchor, ip);
    out := WriteLiterals(out, input[anchor..], 0);
  }

  /** Whatever the hash table holds, what is appended is an encoding of `input`. A flat image shrinks to
      a handful of bytes and one more for every 255. */
  method Lz4EncodeInto(input: seq<byte>, out0: seq<byte>) returns (out: seq<byte>)
    ensures |out0| <= |out| && out[..|out0|] == out0
    ensures IsEncoding(input, out[|out0|..])
    ensures |out| - |out0| <= |input| + |input| / 255 + 6
    ensures Repeats4(input) ==> |out| - |out0| <= |input| / 255 + 21
  {
    ghost var wire;
    if |input| < 13 {
      out, wire := EncodeShort(input, out0);
    } else {
      out, wire := EncodeLong(input, out0);
    }
    assert out[|out0|..] == wire;
    EncodingSize(input, wire);
  }

  // ─── Decoder ─────────────────────────────────────────────────────────────

  method ReadLz4Len(src: seq<byte>, sp0: nat) returns (r: Result<nat>, sp: nat)
    requires sp0 <= |src|
    ensures r.Ok? ==> sp <= |src| && ReadLength(src[sp0..]) == Ok((r.value, src[sp..]))
    ensures r.Err? ==> ReadLength(src[sp0..]) == Err(r.error)
  {
    var total := 0;
    sp := sp0;
    while true
      invariant sp0 <= sp <= |src| && 0 <= total
      invariant var t := ReadLength(src[sp..]);
                ReadLength(src[sp0..]) == if t.Ok? then Ok((total + t.value.0, t.value.1)) else Err(t.error)
      decreases |src| - sp
    {
      if sp >= |src| {
        return Err(InvalidValue), sp;
      }
      var b := src[sp];
      assert src[sp..][1..] == src[sp + 1..];
      sp := sp + 1;
      total := total + b;
      if b != 255 {
        return Ok(total), sp;
      }
    }
  }

  lemma OneMore(o: seq<byte>, prev: seq<byte>, r: nat)
    requires 0 < r <= 4 <= |o| && prev == o + o[|o| - 4..][..r - 1]
    ensures prev + [prev[|prev| - 4]] == o + o[|o| - 4..][..r]
  {
    var last := o[|o| - 4..];
    assert prev[|prev| - 4] == last[r - 1];
    assert last[..r] == last[..r - 1] + [last[r - 1]];
  }

  lemma CopyOne(out0: seq<byte>, n: nat)
    requires |out0| >= 4 && n > 0
    ensures var prev := Copy(out0, 4, n - 1);
            Copy(out0, 4, n) == prev + [prev[|prev| - 4]]
  {
  }

  /** With offset four, up to four more bytes are the last four again. */
  lemma {:induction false} CopyPixel(out0: seq<byte>, n: nat, r: nat)
    requires |out0| >= 4 && r <= 4
    ensures var o := Copy(out0, 4, n);
            Copy(out0, 4, n + r) == o + o[|o| - 4..][..r]
  {
    hide Copy;
    var o := Copy(out0, 4, n);
    if r == 0 {
      assert o + o[|o| - 4..][..0] == o;
    } else {
      CopyPixel(out0, n, r - 1);
      CopyOne(out0, n + r);
      OneMore(o, Copy(out0, 4, n + (r - 1)), r);
    }
  }

  method CopyPixels(out0: seq<byte>, matchLen: nat) returns (out: seq<byte>)
    requires |out0| >= 4
    ensures out == Copy(out0, 4, matchLen)
  {
    var start := |out0| - 4;
    var pat := [out0[start], out0[start + 1], out0[start + 2], out0[start + 3]];
    out := out0;
    for w := 0 to matchLen / 4
      invariant out == Copy(out0, 4, 4 * w)
      invariant out[|out| - 4..] == pat
    {
      CopyPixel(out0, 4 * w, 4);
      assert pat[..4] == pat;
      out := out + pat;
    }
    CopyPixel(out0, matchLen / 4 * 4, matchLen % 4);
    out := out + pat[..matchLen % 4];
  }

  /** One match. Disjoint ranges, one repeated byte and one repeated pixel have their own loops; all four
      paths produce what copying byte by byte would. */
  method CopyMatch(out0: seq<byte>, offset: nat, matchLen: nat) returns (out: seq<byte>)
    requires 0 < offset <= |out0|
    ensures out == Copy(out0, offset, matchLen)
  {
    var start := |out0| - offset;
    if offset >= matchLen {
      out := out0 + out0[start..start + matchLen];
      CopyUnique(out0, offset, matchLen, out);
    } else if offset == 1 {
      out := out0 + seq(matchLen, _ => out0[start]);
      CopyUnique(out0, offset, matchLen, out);
    } else if offset == 4 {
      out := CopyPixels(out0, matchLen);
    } else {
      out := out0;
      for i := 0 to matchLen
        invariant out == Copy(out0, offset, i)
      {
        out := out + [out[start + i]];
      }
    }
  }

  /** The first half of the decoder's loop body: token and literals. */
  method DecodeLiterals(src: seq<byte>, sp0: nat, out: seq<byte>, cap: nat)
    returns (r: Result<seq<byte>>, sp: nat)
    requires sp0 < |src|
    ensures r.Ok? ==> sp0 < sp <= |src|
                      && TakeLiterals(src[sp0..], out, cap) == Ok((r.value, src[sp0] % 16, src[sp..]))
    ensures r.Err? ==> TakeLiterals(src[sp0..], out, cap) == Err(r.error)
  {
    var litLen: nat := src[sp0] / 16;
    sp := sp0 + 1;
    assert src[sp0..][1..] == src[sp..];
    if litLen == 15 {
      var more, sp' := ReadLz4Len(src, sp);
      if more.Err? {
        return Err(more.error), sp;
      }
      assert |src[sp'..]| < |src[sp..]|;
      litLen := litLen + more.value;
      sp := sp';
    }
    if sp + litLen > |src| || |out| + litLen > cap {
      return Err(InvalidValue), sp;
    }
    assert src[sp..][..litLen] == src[sp..sp + litLen] && src[sp..][litLen..] == src[sp + litLen..];
    return Ok(out + src[sp..sp + litLen]), sp + litLen;
  }

  /** The second half of the decoder's loop body: offset, match length, copy. */
  method DecodeMatch(src: seq<byte>, sp0: nat, half: byte, out: seq<byte>, cap: nat)
    returns (r: Result<seq<byte>>, sp: nat)
    requires sp0 <= |src|
    ensures r.Ok? ==> sp0 < sp <= |src| && TakeMatch(half, src[sp0..], out, cap) == Ok((r.value, src[sp..]))
    ensures r.Err? ==> TakeMatch(half, src[sp0..], out, cap) == Err(r.error)
  {
    ghost var p := src[sp0..];
    sp := sp0;
    if sp + 2 > |src| {
      return Err(InvalidValue), sp;
    }
    var offset := src[sp] + 0x100 * (src[sp + 1] as int);
    sp := sp + 2;
    assert p[2..] == src[sp..];
    if offset == 0 || offset > |out| {
      return Err(InvalidValue), sp;
    }
    var m: nat := half;
    if half == 15 {
      var more, sp' := ReadLz4Len(src, sp);
      if more.Err? {
        return Err(more.error), sp;
      }
      assert |src[sp'..]| < |src[sp..]|;
      m := m + more.value;
      sp := sp';
    }
    if |out| + m + MIN_MATCH > cap {
      return Err(InvalidValue), sp;
    }
    var copied := CopyMatch(out, offset, m + MIN_MATCH);
    return Ok(copied), sp;
  }

  /** For arbitrary input: no read is out of range, the loop ends, and the result is the reference decoder's. */
  method Lz4Decode(src: seq<byte>, expectedLen: Option<nat>) returns (r: Result<seq<byte>>)
    ensures r == Decode(src, expectedLen)
  {
    if |src| < 4 {
      return Err(InvalidValue);
    }
    var uncompLen := U32At(src);
    if uncompLen > MAX_MESSAGE_BYTES {
      return Err(MessageTooLarge);
    }
    if expectedLen.Some? && uncompLen != expectedLen.value {
      return Err(InvalidValue);
    }
    var out: seq<byte> := [];
    var sp := 4;
    while sp < |src|
      invariant 4 <= sp <= |src|
      invariant Blocks(src[4..], [], uncompLen) == Blocks(src[sp..], out, uncompLen)
      decreases |src| - sp
    {
      var half := src[sp] % 16;
      var literals, sp1 := DecodeLiterals(src, sp, out, uncompLen);
      if literals.Err? {
        return Err(literals.error);
      }
      out, sp := literals.value, sp1;
      if sp >= |src| {
        break;
      }
      var copied, sp2 := DecodeMatch(src, sp, half, out, uncompLen);
      if copied.Err? {
        return Err(copied.error);
      }
      out, sp := copied.value, sp2;
    }
    if |out| != uncompLen {
      return Err(InvalidValue);
    }
    return Ok(out);
  }
}
