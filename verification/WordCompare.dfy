/** Comparing byte strings eight at a time: the lowest set bit of the XOR of two little-endian words
    sits in the first byte that differs. */
module WordCompare {
  import opened Bytes

  /** `u64::from_le_bytes`, for any number of bytes. */
  function LeValue(s: seq<byte>): nat {
    if s == [] then 0 else s[0] + 0x100 * LeValue(s[1..])
  }

  /** Bitwise exclusive or. */
  function Xor(a: nat, b: nat): nat
    decreases a + b
  {
    if a == 0 && b == 0 then 0 else (if a % 2 == b % 2 then 0 else 1) + 2 * Xor(a / 2, b / 2)
  }

  function TrailingZeros(x: nat): nat {
    if x == 0 || x % 2 == 1 then 0 else 1 + TrailingZeros(x / 2)
  }

  lemma {:induction false} XorZero(a: nat, b: nat)
    ensures Xor(a, b) == 0 <==> a == b
    decreases a + b
  {
    if a != 0 || b != 0 {
      XorZero(a / 2, b / 2);
    }
  }

  lemma TrailingZerosDouble(x: nat)
    requires x > 0
    ensures TrailingZeros(2 * x) == 1 + TrailingZeros(x)
  {
    assert 2 * x / 2 == x;
  }

  lemma EqualLowBit(a: nat, b: nat)
    requires a != b && a % 2 == b % 2
    ensures a / 2 != b / 2
    ensures TrailingZeros(Xor(a, b)) == 1 + TrailingZeros(Xor(a / 2, b / 2))
  {
    var x := Xor(a / 2, b / 2);
    XorZero(a / 2, b / 2);
    assert Xor(a, b) == 2 * x;
    TrailingZerosDouble(x);
  }

  lemma DifferentLowBit(a: nat, b: nat)
    requires a % 2 != b % 2
    ensures TrailingZeros(Xor(a, b)) == 0
  {
  }

  /** Do the `n` low bits agree? */
  predicate AgreeBelow(a: nat, b: nat, n: nat) {
    n == 0 || (a % 2 == b % 2 && AgreeBelow(a / 2, b / 2, n - 1))
  }

  function ShiftRight(a: nat, n: nat): nat {
    if n == 0 then a else ShiftRight(a / 2, n - 1)
  }

  /** Numbers that agree below bit `n` differ above it; otherwise they already differ below it. */
  lemma {:induction false} LowBits(a: nat, b: nat, n: nat)
    requires a != b
    ensures if AgreeBelow(a, b, n)
            then TrailingZeros(Xor(a, b)) == n + TrailingZeros(Xor(ShiftRight(a, n), ShiftRight(b, n)))
            else TrailingZeros(Xor(a, b)) < n
    decreases n
  {
    if n > 0 {
      if a % 2 == b % 2 {
        EqualLowBit(a, b);
        LowBits(a / 2, b / 2, n - 1);
      } else {
        DifferentLowBit(a, b);
      }
    }
  }

  function Pow2(n: nat): (r: nat)
    ensures r > 0
  {
    if n == 0 then 1 else 2 * Pow2(n - 1)
  }

  lemma Halve(x: nat, z: nat)
    ensures (x + 2 * z) / 2 == x / 2 + z && (x + 2 * z) % 2 == x % 2
  {
  }

  lemma Double(k: nat, u: nat)
    ensures 2 * k * u == 2 * (k * u)
  {
  }

  lemma {:induction false} SplitBits(x: nat, u: nat, y: nat, v: nat, n: nat)
    requires x < Pow2(n) && y < Pow2(n)
    ensures AgreeBelow(x + Pow2(n) * u, y + Pow2(n) * v, n) <==> x == y
    ensures ShiftRight(x + Pow2(n) * u, n) == u
    ensures ShiftRight(y + Pow2(n) * v, n) == v
  {
    if n > 0 {
      var k := Pow2(n - 1);
      Double(k, u);
      Double(k, v);
      Halve(x, k * u);
      Halve(y, k * v);
      SplitBits(x / 2, u, y / 2, v, n - 1);
    }
  }

  lemma {:induction false} LeInjective(a: seq<byte>, b: seq<byte>)
    requires |a| == |b| && LeValue(a) == LeValue(b)
    ensures a == b
  {
    if a != [] {
      LeInjective(a[1..], b[1..]);
      assert a == [a[0]] + a[1..] && b == [b[0]] + b[1..];
    }
  }

  /** One byte of the comparison: equal low bytes shift the first differing bit by eight. */
  lemma LowByte(x: byte, u: nat, y: byte, v: nat)
    requires x + 0x100 * u != y + 0x100 * v
    ensures var n := TrailingZeros(Xor(x + 0x100 * u, y + 0x100 * v));
            if x == y then n == 8 + TrailingZeros(Xor(u, v)) else n < 8
  {
    hide Xor, TrailingZeros, AgreeBelow, ShiftRight;
    assert Pow2(8) == 0x100 by {
      assert Pow2(4) == 16;
    }
    hide Pow2;
    SplitBits(x, u, y, v, 8);
    LowBits(x + 0x100 * u, y + 0x100 * v, 8);
  }

  /** `(va ^ vb).trailing_zeros() / 8` is the index of the first byte that differs. */
  lemma {:induction false} FirstDifference(a: seq<byte>, b: seq<byte>)
    requires |a| == |b| && LeValue(a) != LeValue(b)
    ensures var i := TrailingZeros(Xor(LeValue(a), LeValue(b))) / 8;
            i < |a| && a[..i] == b[..i] && a[i] != b[i]
  {
    hide Xor, TrailingZeros;
    var u, v := LeValue(a[1..]), LeValue(b[1..]);
    LowByte(a[0], u, b[0], v);
    if a[0] == b[0] {
      FirstDifference(a[1..], b[1..]);
      var i := TrailingZeros(Xor(u, v)) / 8;
      assert a[..i + 1] == [a[0]] + a[1..][..i] && b[..i + 1] == [b[0]] + b[1..][..i];
    }
  }

  /** `n` is the length of the longest common prefix of `a` and `b`. */
  predicate IsCommonPrefix(a: seq<byte>, b: seq<byte>, n: nat) {
    && n <= |a| && n <= |b|
    && a[..n] == b[..n]
    && (n < |a| && n < |b| ==> a[n] != b[n])
  }

  method CommonPrefixLen(a: seq<byte>, b: seq<byte>) returns (i: nat)
    ensures IsCommonPrefix(a, b, i)
  {
    var n := Min(|a|, |b|);
    i := 0;
    while i + 8 <= n
      invariant i <= n && a[..i] == b[..i]
    {
      var wa, wb := a[i..i + 8], b[i..i + 8];
      var va, vb := LeValue(wa), LeValue(wb);
      if va != vb {
        FirstDifference(wa, wb);
        var k := TrailingZeros(Xor(va, vb)) / 8;
        assert a[..i + k] == a[..i] + wa[..k] && b[..i + k] == b[..i] + wb[..k];
        return i + k;
      }
      LeInjective(wa, wb);
      assert a[..i + 8] == a[..i] + wa && b[..i + 8] == b[..i] + wb;
      i := i + 8;
    }
    while i < n && a[i] == b[i]
      invariant i <= n && a[..i] == b[..i]
    {
      i := i + 1;
    }
  }
}
