/** Bytes, fixed-width integers and the error type shared by the whole codec. */
module Bytes {

  type byte = b: int | 0 <= b < 0x100
  type u16 = v: int | 0 <= v < 0x1_0000
  type u32 = v: int | 0 <= v < 0x1_0000_0000
  type u64 = v: int | 0 <= v < 0x1_0000_0000_0000_0000
  type i32 = v: int | -0x8000_0000 <= v < 0x8000_0000

  /** Hard cap per message: 16 MiB. */
  const MAX_MESSAGE_BYTES := 16 * 1024 * 1024

  const TWO_32 := 0x1_0000_0000

  datatype Option<+T> = None | Some(value: T) {
    function GetOr(default: T): T {
      if Some? then value else default
    }
  }

  datatype Error =
    | UnexpectedEof
    | VarintOverflow
    | LengthOverflow
    | InvalidUtf8
    | InvalidValue
    | TrailingBytes
    | UnknownTag(tag: u32)
    | MessageTooLarge

  datatype Result<+T> = Ok(value: T) | Err(error: Error) {
    predicate IsFailure() {
      Err?
    }

    function PropagateFailure<U>(): Result<U>
      requires Err?
    {
      Err(error)
    }

    function Extract(): T
      requires Ok?
    {
      value
    }
  }

  function Min(a: int, b: int): int {
    if a <= b then a else b
  }

  function Max(a: int, b: int): int {
    if a <= b then b else a
  }

  // Little-endian integers. A reader hands back the value and the unread bytes.

  function Le16(v: u16): (s: seq<byte>)
    ensures |s| == 2
  {
    [v % 0x100, v / 0x100]
  }

  function Le32(v: u32): (s: seq<byte>)
    ensures |s| == 4
  {
    [v % 0x100, v / 0x100 % 0x100, v / 0x1_0000 % 0x100, v / 0x100_0000]
  }

  function Le64(v: u64): (s: seq<byte>)
    ensures |s| == 8
  {
    Le32(v % TWO_32) + Le32(v / TWO_32)
  }

  /** Two's complement. */
  function LeI32(v: i32): (s: seq<byte>)
    ensures |s| == 4
  {
    Le32(if v < 0 then v + TWO_32 else v)
  }

  type Read<T> = Result<(T, seq<byte>)>

  function ReadU8(p: seq<byte>): Read<byte> {
    if |p| < 1 then Err(UnexpectedEof) else Ok((p[0], p[1..]))
  }

  function ReadU16(p: seq<byte>): Read<u16> {
    if |p| < 2 then Err(UnexpectedEof) else Ok((p[0] + 0x100 * (p[1] as int), p[2..]))
  }

  function U32At(p: seq<byte>): u32
    requires |p| >= 4
  {
    p[0] + 0x100 * (p[1] as int) + 0x1_0000 * (p[2] as int) + 0x100_0000 * (p[3] as int)
  }

  function ReadU32(p: seq<byte>): Read<u32> {
    if |p| < 4 then Err(UnexpectedEof) else Ok((U32At(p), p[4..]))
  }

  function ReadU64(p: seq<byte>): Read<u64> {
    if |p| < 8 then Err(UnexpectedEof) else Ok((U32At(p) + TWO_32 * U32At(p[4..]), p[8..]))
  }

  function ReadI32(p: seq<byte>): Read<i32> {
    if |p| < 4 then Err(UnexpectedEof)
    else
      var v := U32At(p);
      Ok((if v < 0x8000_0000 then v else v - TWO_32, p[4..]))
  }

  /** Exactly `n` bytes, or `e` when fewer are left. */
  function ReadBytes(p: seq<byte>, n: nat, e: Error): (r: Read<seq<byte>>)
    ensures r.Ok? ==> |r.value.0| == n
  {
    if |p| < n then Err(e) else Ok((p[..n], p[n..]))
  }

  lemma U32AtLe32(v: u32, rest: seq<byte>)
    ensures U32At(Le32(v) + rest) == v
  {
    var q := v / 0x100;
    assert v / 0x1_0000 == q / 0x100;
    assert v / 0x100_0000 == q / 0x100 / 0x100;
  }

  lemma Le32U32At(p: seq<byte>)
    requires |p| >= 4
    ensures Le32(U32At(p)) == p[..4]
  {
    var v := U32At(p);
    var q := p[1] + 0x100 * (p[2] as int) + 0x1_0000 * (p[3] as int);
    assert v == p[0] + 0x100 * q && v / 0x100 == q;
    var r := p[2] + 0x100 * (p[3] as int);
    assert q == p[1] + 0x100 * r && v / 0x1_0000 == q / 0x100 == r;
    assert v / 0x100_0000 == r / 0x100;
  }

  lemma U64Inverts(v: u64, rest: seq<byte>)
    ensures ReadU64(Le64(v) + rest) == Ok((v, rest))
  {
    var lo, hi := Le32(v % TWO_32), Le32(v / TWO_32);
    U32AtLe32(v % TWO_32, hi + rest);
    U32AtLe32(v / TWO_32, rest);
    assert Le64(v) + rest == lo + (hi + rest);
    assert (lo + (hi + rest))[4..] == hi + rest;
  }

  lemma U32Inverts(v: u32, rest: seq<byte>)
    ensures ReadU32(Le32(v) + rest) == Ok((v, rest))
  {
    U32AtLe32(v, rest);
  }

  lemma I32Inverts(v: i32, rest: seq<byte>)
    ensures ReadI32(LeI32(v) + rest) == Ok((v, rest))
  {
    U32AtLe32(if v < 0 then v + TWO_32 else v, rest);
  }

  /** Every fixed-width reader undoes its writer and leaves what follows untouched. */
  lemma FixedReadersInvert()
    ensures forall v: byte, rest: seq<byte> {:trigger ReadU8([v] + rest)} ::
              ReadU8([v] + rest) == Ok((v, rest))
    ensures forall v: u16, rest: seq<byte> {:trigger ReadU16(Le16(v) + rest)} ::
              ReadU16(Le16(v) + rest) == Ok((v, rest))
    ensures forall v: u32, rest: seq<byte> {:trigger ReadU32(Le32(v) + rest)} ::
              ReadU32(Le32(v) + rest) == Ok((v, rest))
    ensures forall v: u64, rest: seq<byte> {:trigger ReadU64(Le64(v) + rest)} ::
              ReadU64(Le64(v) + rest) == Ok((v, rest))
    ensures forall v: i32, rest: seq<byte> {:trigger ReadI32(LeI32(v) + rest)} ::
              ReadI32(LeI32(v) + rest) == Ok((v, rest))
    ensures forall s: seq<byte>, rest: seq<byte>, e: Error {:trigger ReadBytes(s + rest, |s|, e)} ::
              ReadBytes(s + rest, |s|, e) == Ok((s, rest))
  {
    hide ReadU32, ReadU64, ReadI32, Le32, Le64, LeI32;
    forall v: u32, rest: seq<byte>
      ensures ReadU32(Le32(v) + rest) == Ok((v, rest))
    {
      U32Inverts(v, rest);
    }
    forall v: u64, rest: seq<byte>
      ensures ReadU64(Le64(v) + rest) == Ok((v, rest))
    {
      U64Inverts(v, rest);
    }
    forall v: i32, rest: seq<byte>
      ensures ReadI32(LeI32(v) + rest) == Ok((v, rest))
    {
      I32Inverts(v, rest);
    }
  }
}
