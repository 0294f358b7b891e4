/** Unsigned LEB128 (section 7.6 of DWARF 5), limited to 32 bits. */
module Varint {
  import opened Bytes

  function Leb128(v: nat): (s: seq<byte>)
    ensures 0 < |s|
  {
    if v < 0x80 then [v] else [v % 0x80 + 0x80] + Leb128(v / 0x80)
  }

  lemma {:induction false} Leb128Size(v: u32)
    ensures |Leb128(v)| <= 5
  {
    assert v / 0x80 / 0x80 / 0x80 / 0x80 < 0x80;
    assert |Leb128(v / 0x80 / 0x80 / 0x80 / 0x80)| == 1;
    assert |Leb128(v / 0x80 / 0x80 / 0x80)| <= 2;
    assert |Leb128(v / 0x80 / 0x80)| <= 3;
    assert |Leb128(v / 0x80)| <= 4;
  }

  lemma Leb128Step(a: nat, r: nat)
    requires a < 0x80
    ensures Leb128(a) == [a]
    ensures r > 0 ==> Leb128(a + 0x80 * r) == [a + 0x80] + Leb128(r)
  {
    assert (a + 0x80 * r) / 0x80 == r && (a + 0x80 * r) % 0x80 == a;
  }

  /** Seven bits a byte, the lowest first; the top bit says that another byte follows. */
  lemma Leb128Bytes(a: nat, b: nat, c: nat, d: nat, e: nat)
    requires a < 0x80 && b < 0x80 && c < 0x80 && d < 0x80 && e < 0x10
    ensures Leb128(a) == [a]
    ensures b > 0 ==> Leb128(a + 0x80 * b) == [a + 0x80, b]
    ensures c > 0 ==> Leb128(a + 0x80 * b + 0x4000 * c) == [a + 0x80, b + 0x80, c]
    ensures d > 0 ==> Leb128(a + 0x80 * b + 0x4000 * c + 0x20_0000 * d) == [a + 0x80, b + 0x80, c + 0x80, d]
    ensures e > 0 ==> Leb128(a + 0x80 * b + 0x4000 * c + 0x20_0000 * d + 0x1000_0000 * e)
                      == [a + 0x80, b + 0x80, c + 0x80, d + 0x80, e]
  {
    hide Leb128;
    Leb128Step(e, 0);
    Leb128Step(d, e);
    Leb128Step(c, d);
    Leb128Step(c, d + 0x80 * e);
    Leb128Step(b, c);
    Leb128Step(b, c + 0x80 * d);
    Leb128Step(b, c + 0x80 * (d + 0x80 * e));
    Leb128Step(a, b);
    Leb128Step(a, b + 0x80 * c);
    Leb128Step(a, b + 0x80 * (c + 0x80 * d));
    Leb128Step(a, b + 0x80 * (c + 0x80 * (d + 0x80 * e)));
  }

  method WriteVarint(out0: seq<byte>, v0: u32) returns (out: seq<byte>)
    ensures out == out0 + Leb128(v0)
  {
    out := out0;
    var v := v0;
    while true
      invariant 0 <= v < TWO_32
      invariant out + Leb128(v) == out0 + Leb128(v0)
      decreases v
    {
      var b := v % 0x80;
      v := v / 0x80;
      if v == 0 {
        out := out + [b];
        return;
      }
      assert out + Leb128(v * 0x80 + b) == (out + [b + 0x80]) + Leb128(v);
      out := out + [b + 0x80];
    }
  }

  /** One more than the largest value that bytes `i` to 4 of a varint can carry. */
  function Limit(i: nat): (m: nat)
    requires i <= 4
    ensures m >= 0x10
    decreases 4 - i
  {
    if i == 4 then 0x10 else 0x80 * Limit(i + 1)
  }

  lemma LimitIs32Bits()
    ensures Limit(0) == TWO_32
  {
    assert Limit(2) == 0x80 * 0x80 * 0x10;
  }

  /** The value of the varint that starts at byte `i` of at most five, and the bytes after it. */
  function VarintFrom(p: seq<byte>, i: nat): (r: Read<nat>)
    requires i <= 4
    ensures r.Ok? ==> r.value.0 < Limit(i)
    ensures r.Ok? ==> |r.value.1| < |p|
    decreases 4 - i
  {
    if p == [] then Err(UnexpectedEof)
    else if i == 4 && p[0] >= 0x10 then Err(VarintOverflow)
    else if p[0] < 0x80 then Ok((p[0], p[1..]))
    else
      var (v, rest) :- VarintFrom(p[1..], i + 1);
      Ok((p[0] - 0x80 + 0x80 * v, rest))
  }

  function ReadVarintSpec(p: seq<byte>): (r: Read<u32>)
    ensures r.Ok? ==> |r.value.1| < |p|
  {
    LimitIs32Bits();
    VarintFrom(p, 0)
  }

  /** What any bytes are read as: seven bits from each, up to the first one without its top bit, with or without leading
      zeros; a fifth byte may add four bits. */
  lemma VarintBytes(a: nat, b: nat, c: nat, d: nat, e: byte, rest: seq<byte>)
    requires a < 0x80 && b < 0x80 && c < 0x80 && d < 0x80
    ensures ReadVarintSpec([a] + rest) == Ok((a, rest))
    ensures ReadVarintSpec([a + 0x80] + ([b] + rest)) == Ok((a + 0x80 * b, rest))
    ensures ReadVarintSpec([a + 0x80] + ([b + 0x80] + ([c] + rest))) == Ok((a + 0x80 * b + 0x4000 * c, rest))
    ensures ReadVarintSpec([a + 0x80] + ([b + 0x80] + ([c + 0x80] + ([d] + rest))))
         == Ok((a + 0x80 * b + 0x4000 * c + 0x20_0000 * d, rest))
    ensures ReadVarintSpec([a + 0x80] + ([b + 0x80] + ([c + 0x80] + ([d + 0x80] + ([e] + rest)))))
         == if e >= 0x10 then Err(VarintOverflow)
            else Ok((a + 0x80 * b + 0x4000 * c + 0x20_0000 * d + 0x1000_0000 * e, rest))
    ensures ReadVarintSpec([]) == ReadVarintSpec([a + 0x80] + []) == ReadVarintSpec([a + 0x80] + ([b + 0x80] + []))
         == ReadVarintSpec([a + 0x80] + ([b + 0x80] + ([c + 0x80] + [])))
         == ReadVarintSpec([a + 0x80] + ([b + 0x80] + ([c + 0x80] + ([d + 0x80] + []))))
         == Err(UnexpectedEof)
  {
  }

  /** `v << shift`. */
  function Shl(v: nat, shift: nat): nat {
    if shift == 0 then v else 2 * Shl(v, shift - 1)
  }

  lemma {:induction false} ShlAdds(a: nat, v: nat, shift: nat)
    ensures Shl(a + v, shift) == Shl(a, shift) + Shl(v, shift)
  {
    if shift > 0 {
      ShlAdds(a, v, shift - 1);
    }
  }

  lemma {:induction false} ShlSeven(v: nat, shift: nat)
    ensures Shl(0x80 * v, shift) == Shl(v, shift + 7)
  {
    if shift == 0 {
      assert Shl(v, 7) == 2 * Shl(v, 6) && Shl(v, 6) == 2 * Shl(v, 5) && Shl(v, 5) == 2 * Shl(v, 4);
      assert Shl(v, 4) == 2 * Shl(v, 3) && Shl(v, 3) == 2 * Shl(v, 2) && Shl(v, 2) == 2 * Shl(v, 1);
    } else {
      ShlSeven(v, shift - 1);
    }
  }

  /** The bits read so far and the rest of the varint, shifted past them. */
  function Join(acc: nat, shift: nat, tail: Read<nat>): Read<nat> {
    if tail.Err? then tail else Ok((acc + Shl(tail.value.0, shift), tail.value.1))
  }

  lemma JoinStep(acc: nat, shift: nat, p: seq<byte>, i: nat)
    requires i < 4 && p != [] && p[0] >= 0x80
    ensures Join(acc, shift, VarintFrom(p, i))
         == Join(acc + Shl(p[0] - 0x80, shift), shift + 7, VarintFrom(p[1..], i + 1))
  {
    var t := VarintFrom(p[1..], i + 1);
    if t.Ok? {
      ShlAdds(p[0] - 0x80, 0x80 * t.value.0, shift);
      ShlSeven(t.value.0, shift);
    }
  }

  /** `result |= x << shift` never meets a bit already set, so it is an addition. */
  method ReadVarint(buf: seq<byte>) returns (r: Read<u32>)
    ensures r == ReadVarintSpec(buf)
  {
    var p := buf;
    var result: nat := 0;
    var shift: nat := 0;
    var i := 0;
    while i < 5
      invariant 0 <= i <= 4
      invariant ReadVarintSpec(buf) == Join(result, shift, VarintFrom(p, i))
    {
      if p == [] {
        return Err(UnexpectedEof);
      }
      var b := p[0];
      if i == 4 && b >= 0x10 {
        return Err(VarintOverflow);
      }
      if b < 0x80 {
        return Ok((result + Shl(b, shift), p[1..]));
      }
      JoinStep(result, shift, p, i);
      result := result + Shl(b - 0x80, shift);
      p := p[1..];
      shift := shift + 7;
      i := i + 1;
    }
    return Err(VarintOverflow);
  }

  lemma {:induction false} VarintRoundTripFrom(v: nat, i: nat, rest: seq<byte>)
    requires i <= 4 && v < Limit(i)
    ensures VarintFrom(Leb128(v) + rest, i) == Ok((v, rest))
    decreases 4 - i
  {
    if v >= 0x80 {
      VarintRoundTripFrom(v / 0x80, i + 1, rest);
      assert (Leb128(v) + rest)[1..] == Leb128(v / 0x80) + rest;
    }
  }

  /** Reading undoes writing, for every 32-bit value and whatever follows on the wire. */
  lemma VarintRoundTrip(v: u32, rest: seq<byte>)
    ensures ReadVarintSpec(Leb128(v) + rest) == Ok((v, rest))
  {
    LimitIs32Bits();
    VarintRoundTripFrom(v, 0, rest);
  }

  lemma {:induction false} VarintStableFrom(p: seq<byte>, i: nat, more: seq<byte>)
    requires i <= 4
    ensures var r := VarintFrom(p, i);
            if r.Ok? then VarintFrom(p + more, i) == Ok((r.value.0, r.value.1 + more))
            else r.error != UnexpectedEof ==> VarintFrom(p + more, i) == r
    decreases 4 - i
  {
    hide Limit;
    if p != [] {
      assert (p + more)[1..] == p[1..] + more;
      if p[0] >= 0x80 && i < 4 {
        VarintStableFrom(p[1..], i + 1, more);
      }
    }
  }

  /** More input never changes a verdict other than "ran out". */
  lemma VarintStable(p: seq<byte>, more: seq<byte>)
    ensures var r := ReadVarintSpec(p);
            if r.Ok? then ReadVarintSpec(p + more) == Ok((r.value.0, r.value.1 + more))
            else r.error != UnexpectedEof ==> ReadVarintSpec(p + more) == r
  {
    VarintStableFrom(p, 0, more);
  }

  /** A varint that `a` is too short for ends inside `b`. */
  lemma {:induction false} VarintOverruns(a: seq<byte>, b: seq<byte>, i: nat)
    requires i <= 4 && VarintFrom(a + b, i).Ok? && VarintFrom(a, i) == Err(UnexpectedEof)
    ensures |VarintFrom(a + b, i).value.1| < |b|
    decreases 4 - i
  {
    hide Limit;
    if a == [] {
      assert a + b == b;
    } else {
      assert (a + b)[1..] == a[1..] + b;
      VarintOverruns(a[1..], b, i + 1);
    }
  }

  /** Input cut short: inside the varint it is always reported as "ran out", never as a different value;
      behind it, the value stands. */
  lemma VarintCut(p: seq<byte>, cut: nat)
    requires ReadVarintSpec(p).Ok? && cut <= |p|
    ensures var (v, rest) := ReadVarintSpec(p).value;
            ReadVarintSpec(p[..cut]) == if cut < |p| - |rest| then Err(UnexpectedEof)
                                        else Ok((v, rest[..cut - (|p| - |rest|)]))
  {
    hide VarintFrom;
    assert p == p[..cut] + p[cut..];
    VarintStable(p[..cut], p[cut..]);
    if ReadVarintSpec(p[..cut]) == Err(UnexpectedEof) {
      VarintOverruns(p[..cut], p[cut..], 0);
    }
  }
}
