/** Pixel payloads as RawFrame, Subframe and TileData carry them: raw, LZ4, filtered LZ4 twice over, or
    half-resolution filtered LZ4. */
module PixelPayload {
  import opened Bytes
  import opened HalfRes
  import opened PixelFilter
  import Lz4Codec
  import Lz4Format

  const RAW := 0
  const ZSTD := 1 // in fact plain LZ4
  const ZSTD_DELTA := 2
  const LZ4_DELTA_Q2 := 3

  ghost predicate WritesDelta(pixels: seq<byte>, stage1: seq<byte>, px: seq<byte>) {
    Lz4Format.IsEncoding(Filtered(pixels), stage1) && Lz4Format.IsEncoding(stage1, px)
  }

  /** `px` is a way of writing `pixels` under `compression`. */
  ghost predicate WritesPixels(compression: byte, w: nat, h: nat, pixels: seq<byte>, px: seq<byte>) {
    match compression
    case 0 => px == pixels
    case 1 => Lz4Format.IsEncoding(pixels, px)
    case 2 => exists stage1 :: WritesDelta(pixels, stage1, px)
    case 3 => Lz4Format.IsEncoding(Filtered(Downsampled(pixels, w, h)), px)
    case _ => false
  }

  /** What a receiver makes of payload bytes `wire`; `expected` is stride times height. */
  function ReadPixels(wire: seq<byte>, compression: byte, w: nat, h: nat, expected: nat): (r: Result<seq<byte>>)
    ensures r.Ok? ==> |r.value| == expected
  {
    var pixels :-
      match compression
      case 0 => Ok(wire)
      case 1 => Lz4Format.Decode(wire, Some(expected))
      case 2 =>
        var stage1 :- Lz4Format.Decode(wire, None);
        var out :- Lz4Format.Decode(stage1, Some(expected));
        Ok(Unfiltered(out))
      case 3 =>
        var qbuf :- Lz4Format.Decode(wire, Some(Half(w) * Half(h) * 4));
        Ok(Upsampled(Unfiltered(qbuf), w, h))
      case _ => Err(InvalidValue);
    if |pixels| != expected then Err(InvalidValue) else Ok(pixels)
  }

  /** Raw payloads are the pixels themselves, plain ones one block; an unknown mode is refused. */
  lemma ReadModes(wire: seq<byte>, compression: byte, w: nat, h: nat, expected: nat)
    ensures compression == 0 ==>
              ReadPixels(wire, compression, w, h, expected)
              == if |wire| == expected then Ok(wire) else Err(InvalidValue)
    ensures compression == 1 ==>
              ReadPixels(wire, compression, w, h, expected) == Lz4Format.Decode(wire, Some(expected))
    ensures compression > 3 ==> ReadPixels(wire, compression, w, h, expected) == Err(InvalidValue)
  {
  }

  /** Other compression values make the program panic, as does a half-resolution source that is too short. */
  method WritePayloadGeom(out0: seq<byte>, compression: byte, w: nat, h: nat, pixels: seq<byte>)
    returns (out: seq<byte>)
    requires compression <= 3
    requires compression == LZ4_DELTA_Q2 ==> |pixels| >= w * h * 4
    ensures |out0| <= |out| && out[..|out0|] == out0
    ensures WritesPixels(compression, w, h, pixels, out[|out0|..])
  {
    match compression {
      case 0 => out := out0 + pixels;
      case 1 => out := Lz4Codec.Lz4EncodeInto(pixels, out0);
      case 2 =>
        var filtered := SpatialFilterSub(pixels);
        var stage1 := Lz4Codec.Lz4EncodeInto(filtered, []);
        assert stage1[0..] == stage1;
        out := Lz4Codec.Lz4EncodeInto(stage1, out0);
        assert WritesDelta(pixels, stage1, out[|out0|..]);
      case 3 =>
        var down := Downsample2x2(pixels, w, h);
        var filtered := SpatialFilterSub(down);
        out := Lz4Codec.Lz4EncodeInto(filtered, out0);
    }
  }

  method Unfilter(b: seq<byte>) returns (r: seq<byte>)
    ensures r == Unfiltered(b)
  {
    var buf := new byte[|b|](i requires 0 <= i < |b| => b[i]);
    assert buf[..] == b;
    SpatialUnfilterSubInPlace(buf);
    r := buf[..];
  }

  method ReadPayloadGeom(wire: seq<byte>, compression: byte, w: nat, h: nat, expected: nat)
    returns (r: Result<seq<byte>>)
    ensures r == ReadPixels(wire, compression, w, h, expected)
  {
    var pixels: seq<byte>;
    match compression {
      case 0 => pixels := wire;
      case 1 =>
        var d := Lz4Codec.Lz4Decode(wire, Some(expected));
        if d.Err? { return Err(d.error); }
        pixels := d.value;
      case 2 =>
        var stage1 := Lz4Codec.Lz4Decode(wire, None);
        if stage1.Err? { return Err(stage1.error); }
        var d := Lz4Codec.Lz4Decode(stage1.value, Some(expected));
        if d.Err? { return Err(d.error); }
        pixels := Unfilter(d.value);
      case 3 =>
        var d := Lz4Codec.Lz4Decode(wire, Some(Half(w) * Half(h) * 4));
        if d.Err? { return Err(d.error); }
        var qbuf := Unfilter(d.value);
        pixels := Upsample2x2(qbuf, w, h);
      case _ => return Err(InvalidValue);
    }
    if |pixels| != expected { return Err(InvalidValue); }
    return Ok(pixels);
  }

  // ─── Round trips ─────────────────────────────────────────────────────────

  /** Plain LZ4 payloads survive exactly up to the message cap. */
  lemma PlainRoundTrip(pixels: seq<byte>, w: nat, h: nat, px: seq<byte>)
    requires WritesPixels(ZSTD, w, h, pixels, px)
    ensures ReadPixels(px, ZSTD, w, h, |pixels|) == Ok(pixels) <==> |pixels| <= MAX_MESSAGE_BYTES
  {
    Lz4Format.RoundTrip(pixels, px);
  }

  ghost predicate TailIsZero(p: seq<byte>) {
    forall i :: Whole(|p|) <= i < |p| ==> p[i] == 0
  }

  /** Nothing longer than the cap comes out of the second stage. */
  lemma DeltaWithinCap(px: seq<byte>, w: nat, h: nat, expected: nat)
    ensures ReadPixels(px, ZSTD_DELTA, w, h, expected).Ok? ==> expected <= MAX_MESSAGE_BYTES
  {
    hide Unfiltered;
    var stage1 := Lz4Format.Decode(px, None);
    if stage1.Ok? {
      var out := Lz4Format.Decode(stage1.value, Some(expected));
    }
  }

  lemma UnfilterTail(pixels: seq<byte>)
    ensures |Unfiltered(Filtered(pixels))| == |pixels|
    ensures Unfiltered(Filtered(pixels)) == pixels <==> TailIsZero(pixels)
  {
    FilterRoundTrip(pixels);
  }

  /** Filtered, twice compressed payloads survive exactly when they and the intermediate stage fit the cap and the
      bytes after the last whole pixel are zero. */
  lemma DeltaRoundTrip(pixels: seq<byte>, w: nat, h: nat, stage1: seq<byte>, px: seq<byte>)
    requires WritesDelta(pixels, stage1, px)
    ensures ReadPixels(px, ZSTD_DELTA, w, h, |pixels|) == Ok(pixels)
            <==> |stage1| <= MAX_MESSAGE_BYTES && TailIsZero(pixels) && |pixels| <= MAX_MESSAGE_BYTES
  {
    hide Filtered, Unfiltered, TailIsZero, Lz4Format.Decode, Lz4Format.IsEncoding;
    FilteredSize(pixels);
    DeltaWithinCap(px, w, h, |pixels|);
    Lz4Format.RoundTrip(Filtered(pixels), stage1);
    Lz4Format.RoundTrip(stage1, px);
    UnfilterTail(pixels);
    if |stage1| > MAX_MESSAGE_BYTES && |pixels| <= MAX_MESSAGE_BYTES {
      Lz4Format.EncodingSize(Filtered(pixels), stage1);
      Lz4Format.HeaderTooLarge(stage1, px);
    }
  }

  /** What a receiver shows for `pixels`: the same bytes, or the half-resolution reconstruction. */
  function Shown(compression: byte, w: nat, h: nat, pixels: seq<byte>): seq<byte> {
    if compression == LZ4_DELTA_Q2 then Upsampled(Downsampled(pixels, w, h), w, h) else pixels
  }

  /** Pixels that a sender may put in a message of `expected` bytes, by sizes alone. */
  predicate Sendable(compression: byte, w: nat, h: nat, pixels: seq<byte>, expected: nat) {
    match compression
    case 0 => |pixels| == expected
    case 1 => |pixels| == expected <= MAX_MESSAGE_BYTES
    case 2 => |pixels| == expected && expected % 4 == 0 && expected + expected / 255 + 6 <= MAX_MESSAGE_BYTES
    case 3 => |pixels| >= w * h * 4 == expected && Half(w) * Half(h) * 4 <= MAX_MESSAGE_BYTES
    case _ => false
  }

  lemma HalfResRoundTrip(w: nat, h: nat, pixels: seq<byte>, px: seq<byte>, expected: nat)
    requires expected == w * h * 4 && Half(w) * Half(h) * 4 <= MAX_MESSAGE_BYTES
    requires WritesPixels(LZ4_DELTA_Q2, w, h, pixels, px)
    ensures ReadPixels(px, LZ4_DELTA_Q2, w, h, expected) == Ok(Upsampled(Downsampled(pixels, w, h), w, h))
  {
    hide Downsampled, Upsampled, Half, Lz4Format.Decode, Lz4Format.IsEncoding, Unfiltered, Filtered;
    var q := Downsampled(pixels, w, h);
    DownsampledSize(pixels, w, h);
    UpsampledSize(q, w, h);
    assert |Filtered(q)| == |q| && Unfiltered(Filtered(q)) == q by {
      FilteredSize(q);
      FilterRoundTrip(q);
    }
    Lz4Format.RoundTrip(Filtered(q), px);
  }

  /** Payload round trip for every mode: whatever bytes the writer chose, the reader recovers the pixels,
      or their half-resolution image. */
  lemma PayloadRoundTrip(compression: byte, w: nat, h: nat, pixels: seq<byte>, px: seq<byte>, expected: nat)
    requires Sendable(compression, w, h, pixels, expected)
    requires WritesPixels(compression, w, h, pixels, px)
    ensures ReadPixels(px, compression, w, h, expected) == Ok(Shown(compression, w, h, pixels))
  {
    match compression {
      case 0 =>
      case 1 => PlainRoundTrip(pixels, w, h, px);
      case 2 =>
        var stage1 :| WritesDelta(pixels, stage1, px);
        Lz4Format.EncodingSize(Filtered(pixels), stage1);
        DeltaRoundTrip(pixels, w, h, stage1, px);
      case 3 => HalfResRoundTrip(w, h, pixels, px, expected);
    }
  }
}
