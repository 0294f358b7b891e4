/** The wrapping-subtract filter over four-byte pixels, and its in-place inverse. */
module PixelFilter {
  import opened Bytes

  /** The bytes that belong to whole pixels. */
  function Whole(n: nat): nat {
    n / 4 * 4
  }

  function WrappingAdd(a: byte, b: byte): byte {
    ((a as int) + (b as int)) % 0x100
  }

  function WrappingSub(a: byte, b: byte): byte {
    ((a as int) - (b as int)) % 0x100
  }

  /** Each pixel byte minus the same channel of the pixel before, modulo 256; a ragged tail becomes zero. */
  function FilteredAt(p: seq<byte>, i: nat): byte
    requires i < |p|
  {
    if i >= Whole(|p|) then 0 else if i < 4 then p[i] else WrappingSub(p[i], p[i - 4])
  }

  function Filtered(p: seq<byte>): seq<byte> {
    seq(|p|, i requires 0 <= i < |p| => FilteredAt(p, i))
  }

  lemma FilteredSize(p: seq<byte>)
    ensures |Filtered(p)| == |p|
  {
  }

  /** Filtering keeps the first pixel, makes each further byte the difference to the one four before it, modulo 256, and
      zeroes what does not belong to a whole pixel. */
  lemma FilteredBytes(p: seq<byte>, i: nat)
    requires i < |p|
    ensures i >= |p| / 4 * 4 ==> Filtered(p)[i] == 0
    ensures i < 4 <= |p| ==> Filtered(p)[i] == p[i]
    ensures 4 <= i < |p| / 4 * 4 ==> ((Filtered(p)[i] as int) + p[i - 4]) % 0x100 == p[i]
  {
  }

  /** The running sum of each channel, modulo 256; a ragged tail is left alone. */
  function UnfilteredAt(b: seq<byte>, i: nat): byte
    requires i < |b|
  {
    if i >= Whole(|b|) || i < 4 then b[i] else WrappingAdd(b[i], UnfilteredAt(b, i - 4))
  }

  function Unfiltered(b: seq<byte>): seq<byte> {
    seq(|b|, i requires 0 <= i < |b| => UnfilteredAt(b, i))
  }

  /** Unfiltering keeps the first pixel and what does not belong to a whole one, and adds to each other byte the result
      four before it, modulo 256. */
  lemma UnfilteredBytes(b: seq<byte>, i: nat)
    requires i < |b|
    ensures i < 4 || i >= |b| / 4 * 4 ==> Unfiltered(b)[i] == b[i]
    ensures 4 <= i < |b| / 4 * 4 ==> Unfiltered(b)[i] == ((b[i] as int) + Unfiltered(b)[i - 4]) % 0x100
  {
  }

  lemma {:induction false} UnfilterInverts(p: seq<byte>, i: nat)
    requires i < |p|
    ensures UnfilteredAt(Filtered(p), i) == if i < Whole(|p|) then p[i] else 0
  {
    if 4 <= i < Whole(|p|) {
      UnfilterInverts(p, i - 4);
    }
  }

  /** The filter loses nothing exactly when the bytes after the last whole pixel are zero (there are none
      when the length is a multiple of four). */
  lemma FilterRoundTrip(p: seq<byte>)
    ensures Unfiltered(Filtered(p)) == p <==> forall i :: Whole(|p|) <= i < |p| ==> p[i] == 0
  {
    forall i | 0 <= i < |p|
      ensures Unfiltered(Filtered(p))[i] == if i < Whole(|p|) then p[i] else 0
    {
      UnfilterInverts(p, i);
    }
  }

  method SpatialFilterSub(pixels: seq<byte>) returns (out: seq<byte>)
    ensures out == Filtered(pixels)
  {
    out := seq(|pixels|, _ => 0);
    var chunks := |pixels| / 4;
    if chunks == 0 {
      return;
    }
    out := pixels[..4] + out[4..];
    var prev := pixels[..4];
    for c := 1 to chunks
      invariant |out| == |pixels| && prev == pixels[4 * (c - 1)..4 * c]
      invariant forall i :: 0 <= i < |pixels| ==> out[i] == if i < 4 * c then FilteredAt(pixels, i) else 0
    {
      var curr := pixels[4 * c..4 * c + 4];
      var diff := seq(4, k requires 0 <= k < 4 => WrappingSub(curr[k], prev[k]));
      assert forall k :: 0 <= k < 4 ==> diff[k] == FilteredAt(pixels, 4 * c + k);
      out := out[..4 * c] + diff + out[4 * c + 4..];
      prev := curr;
    }
  }

  method SpatialUnfilterSubInPlace(buf: array<byte>)
    modifies buf
    ensures buf[..] == Unfiltered(old(buf[..]))
  {
    var chunks := buf.Length / 4;
    if chunks <= 1 {
      return;
    }
    ghost var b := buf[..];
    var prev := [buf[0], buf[1], buf[2], buf[3]];
    for c := 1 to chunks
      invariant |prev| == 4 && forall k :: 0 <= k < 4 ==> prev[k] == UnfilteredAt(b, 4 * (c - 1) + k)
      invariant forall i :: 0 <= i < buf.Length ==> buf[i] == if i < 4 * c then UnfilteredAt(b, i) else b[i]
    {
      var o := 4 * c;
      prev := [WrappingAdd(buf[o], prev[0]), WrappingAdd(buf[o + 1], prev[1]),
               WrappingAdd(buf[o + 2], prev[2]), WrappingAdd(buf[o + 3], prev[3])];
      assert forall k :: 0 <= k < 4 ==> prev[k] == UnfilteredAt(b, o + k);
      buf[o], buf[o + 1], buf[o + 2], buf[o + 3] := prev[0], prev[1], prev[2], prev[3];
    }
  }
}
