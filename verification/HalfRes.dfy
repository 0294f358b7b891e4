/** Half-resolution pixels: a 2x2 box average and its bilinear counterpart. */
module HalfRes {
  import opened Bytes

  /** `n.div_ceil(2)` */
  function Half(n: nat): nat {
    (n + 1) / 2
  }

  /** The average of four bytes, rounded to nearest: `(a + b + c + d + 2) >> 2`. */
  function Average(a: byte, b: byte, c: byte, d: byte): byte {
    ((a as int) + (b as int) + (c as int) + (d as int) + 2) / 4
  }

  /** Where pixel (x, y) starts in a tightly packed image of width `w`. */
  function At(w: nat, x: nat, y: nat): nat {
    y * w * 4 + x * 4
  }

  lemma AtInside(w: nat, h: nat, x: nat, y: nat)
    requires x < w && y < h
    ensures At(w, x, y) + 3 < w * h * 4
  {
    assert (y + 1) * w <= h * w;
  }

  /** Channel `c` of pixel (x, y), or zero outside the data. */
  function Get(p: seq<byte>, w: nat, x: nat, y: nat, c: nat): byte {
    var i := At(w, x, y) + c;
    if i < |p| then p[i] else 0
  }

  /** The three colour channels of four pixels averaged, alpha opaque. */
  function AveragePixel(p: seq<byte>, w: nat, x0: nat, x1: nat, y0: nat, y1: nat): (px: seq<byte>)
    ensures |px| == 4 && px[3] == 0xFF
    ensures forall c :: 0 <= c < 3 ==>
              px[c] == Average(Get(p, w, x0, y0, c), Get(p, w, x1, y0, c), Get(p, w, x0, y1, c), Get(p, w, x1, y1, c))
  {
    [Average(Get(p, w, x0, y0, 0), Get(p, w, x1, y0, 0), Get(p, w, x0, y1, 0), Get(p, w, x1, y1, 0)),
     Average(Get(p, w, x0, y0, 1), Get(p, w, x1, y0, 1), Get(p, w, x0, y1, 1), Get(p, w, x1, y1, 1)),
     Average(Get(p, w, x0, y0, 2), Get(p, w, x1, y0, 2), Get(p, w, x0, y1, 2), Get(p, w, x1, y1, 2)),
     0xFF]
  }

  /** One box: the four pixels under it, the last row or column standing in for a missing one. */
  function Box(src: seq<byte>, w: nat, h: nat, qx: nat, qy: nat): (px: seq<byte>)
    requires 0 < w && 0 < h
    ensures |px| == 4
  {
    AveragePixel(src, w, Min(2 * qx, w - 1), Min(2 * qx + 1, w - 1), Min(2 * qy, h - 1), Min(2 * qy + 1, h - 1))
  }

  /** One full-size pixel: even coordinates copy a box, odd ones blend it with the next. */
  function Blend(q: seq<byte>, w: nat, h: nat, x: nat, y: nat): (px: seq<byte>)
    requires 0 < w && 0 < h
    ensures |px| == 4
  {
    var x0, y0 := Min(x / 2, Half(w) - 1), Min(y / 2, Half(h) - 1);
    AveragePixel(q, Half(w), x0, Min(x0 + x % 2, Half(w) - 1), y0, Min(y0 + y % 2, Half(h) - 1))
  }

  // The images the two loops build: pixels appended to rows, rows appended to the image.

  function BoxRow(src: seq<byte>, w: nat, h: nat, y: nat, n: nat): (r: seq<byte>)
    requires 0 < w && 0 < h
    ensures |r| == n * 4
  {
    if n == 0 then [] else BoxRow(src, w, h, y, n - 1) + Box(src, w, h, n - 1, y)
  }

  function BoxRows(src: seq<byte>, w: nat, h: nat, n: nat): seq<byte>
    requires 0 < w && 0 < h
  {
    if n == 0 then [] else BoxRows(src, w, h, n - 1) + BoxRow(src, w, h, n - 1, Half(w))
  }

  function BlendRow(q: seq<byte>, w: nat, h: nat, y: nat, n: nat): (r: seq<byte>)
    requires 0 < w && 0 < h
    ensures |r| == n * 4
  {
    if n == 0 then [] else BlendRow(q, w, h, y, n - 1) + Blend(q, w, h, n - 1, y)
  }

  function BlendRows(q: seq<byte>, w: nat, h: nat, n: nat): seq<byte>
    requires 0 < w && 0 < h
  {
    if n == 0 then [] else BlendRows(q, w, h, n - 1) + BlendRow(q, w, h, n - 1, w)
  }

  function Downsampled(src: seq<byte>, w: nat, h: nat): seq<byte> {
    if w == 0 || h == 0 then [] else BoxRows(src, w, h, Half(h))
  }

  /** A half-size image that is too short yields zeros. */
  function Upsampled(q: seq<byte>, w: nat, h: nat): seq<byte> {
    if w == 0 || h == 0 || |q| < Half(w) * Half(h) * 4 then seq(w * h * 4, _ => 0)
    else BlendRows(q, w, h, h)
  }

  // ─── The loops ───────────────────────────────────────────────────────────

  /** Slicing the four pixels out of the buffer never leaves it. */
  method ReadAverage(p: seq<byte>, w: nat, h: nat, x0: nat, x1: nat, y0: nat, y1: nat) returns (px: seq<byte>)
    requires |p| >= w * h * 4 && x0 < w && x1 < w && y0 < h && y1 < h
    ensures px == AveragePixel(p, w, x0, x1, y0, y1)
  {
    AtInside(w, h, x0, y0);
    AtInside(w, h, x1, y0);
    AtInside(w, h, x0, y1);
    AtInside(w, h, x1, y1);
    var p00 := p[At(w, x0, y0)..At(w, x0, y0) + 4];
    var p10 := p[At(w, x1, y0)..At(w, x1, y0) + 4];
    var p01 := p[At(w, x0, y1)..At(w, x0, y1) + 4];
    var p11 := p[At(w, x1, y1)..At(w, x1, y1) + 4];
    px := [Average(p00[0], p10[0], p01[0], p11[0]),
           Average(p00[1], p10[1], p01[1], p11[1]),
           Average(p00[2], p10[2], p01[2], p11[2]),
           0xFF];
  }

  method Downsample2x2(src: seq<byte>, w: nat, h: nat) returns (out: seq<byte>)
    requires |src| >= w * h * 4
    ensures out == Downsampled(src, w, h)
  {
    hide AveragePixel, At;
    out := [];
    if w == 0 {
      return;
    }
    for qy := 0 to Half(h)
      invariant h > 0 ==> out == BoxRows(src, w, h, qy)
      invariant h == 0 ==> out == []
    {
      var y0 := qy * 2;
      var y1 := Min(y0 + 1, h - 1);
      ghost var above := out;
      for qx := 0 to Half(w)
        invariant out == above + BoxRow(src, w, h, qy, qx)
      {
        var x0 := qx * 2;
        var x1 := Min(x0 + 1, w - 1);
        var px := ReadAverage(src, w, h, x0, x1, y0, y1);
        out := out + px;
      }
    }
  }

  method UpsampleRow(q: seq<byte>, w: nat, h: nat, y: nat) returns (row: seq<byte>)
    requires 0 < w && y < h && |q| >= Half(w) * Half(h) * 4
    ensures row == BlendRow(q, w, h, y, w)
  {
    hide AveragePixel, At;
    var qw, qh := Half(w), Half(h);
    var y0 := Min(y / 2, qh - 1);
    var y1 := Min(y0 + y % 2, qh - 1);
    row := [];
    for x := 0 to w
      invariant row == BlendRow(q, w, h, y, x)
    {
      var x0 := Min(x / 2, qw - 1);
      var x1 := Min(x0 + x % 2, qw - 1);
      var px := ReadAverage(q, qw, qh, x0, x1, y0, y1);
      row := row + px;
    }
  }

  method Upsample2x2(q: seq<byte>, w: nat, h: nat) returns (out: seq<byte>)
    ensures out == Upsampled(q, w, h)
  {
    hide BlendRow, Blend;
    if Half(w) == 0 || Half(h) == 0 || |q| < Half(w) * Half(h) * 4 {
      return seq(w * h * 4, _ => 0);
    }
    out := [];
    for y := 0 to h
      invariant out == BlendRows(q, w, h, y)
    {
      var row := UpsampleRow(q, w, h, y);
      out := out + row;
    }
  }

  // ─── What each pixel of the two images is ────────────────────────────────

  lemma {:induction false} BoxRowAt(src: seq<byte>, w: nat, h: nat, y: nat, n: nat, x: nat, c: nat)
    requires 0 < w && 0 < h && x < n && c < 4
    ensures BoxRow(src, w, h, y, n)[x * 4 + c] == Box(src, w, h, x, y)[c]
  {
    if x < n - 1 {
      BoxRowAt(src, w, h, y, n - 1, x, c);
    }
  }

  lemma RowSize(n: nat, w: nat)
    requires n > 0
    ensures (n - 1) * w * 4 + w * 4 == n * w * 4
  {
  }

  lemma {:induction false} BoxRowsSize(src: seq<byte>, w: nat, h: nat, n: nat)
    requires 0 < w && 0 < h
    ensures |BoxRows(src, w, h, n)| == n * Half(w) * 4
  {
    hide Box, Half;
    if n > 0 {
      BoxRowsSize(src, w, h, n - 1);
      RowSize(n, Half(w));
    }
  }

  lemma {:induction false} BlendRowsSize(q: seq<byte>, w: nat, h: nat, n: nat)
    requires 0 < w && 0 < h
    ensures |BlendRows(q, w, h, n)| == n * w * 4
  {
    hide Blend;
    if n > 0 {
      BlendRowsSize(q, w, h, n - 1);
      RowSize(n, w);
    }
  }

  lemma {:induction false} BoxRowsAt(src: seq<byte>, w: nat, h: nat, n: nat, x: nat, y: nat, c: nat)
    requires 0 < w && 0 < h && x < Half(w) && y < n && c < 4
    ensures Get(BoxRows(src, w, h, n), Half(w), x, y, c) == Box(src, w, h, x, y)[c]
  {
    hide Box, Half;
    BoxRowsSize(src, w, h, n - 1);
    if y < n - 1 {
      AtInside(Half(w), n - 1, x, y);
      assert (n - 1) * Half(w) * 4 == Half(w) * (n - 1) * 4;
      BoxRowsAt(src, w, h, n - 1, x, y, c);
    } else {
      BoxRowAt(src, w, h, y, Half(w), x, c);
    }
  }

  lemma {:induction false} BlendRowAt(q: seq<byte>, w: nat, h: nat, y: nat, n: nat, x: nat, c: nat)
    requires 0 < w && 0 < h && x < n && c < 4
    ensures BlendRow(q, w, h, y, n)[x * 4 + c] == Blend(q, w, h, x, y)[c]
  {
    if x < n - 1 {
      BlendRowAt(q, w, h, y, n - 1, x, c);
    }
  }

  lemma {:induction false} BlendRowsAt(q: seq<byte>, w: nat, h: nat, n: nat, x: nat, y: nat, c: nat)
    requires 0 < w && 0 < h && x < w && y < n && c < 4
    ensures Get(BlendRows(q, w, h, n), w, x, y, c) == Blend(q, w, h, x, y)[c]
  {
    hide Blend;
    BlendRowsSize(q, w, h, n - 1);
    if y < n - 1 {
      AtInside(w, n - 1, x, y);
      assert (n - 1) * w * 4 == w * (n - 1) * 4;
      BlendRowsAt(q, w, h, n - 1, x, y, c);
    } else {
      BlendRowAt(q, w, h, y, w, x, c);
    }
  }

  lemma DownsampledBox(src: seq<byte>, w: nat, h: nat, qx: nat, qy: nat, c: nat)
    requires qx < Half(w) && qy < Half(h) && c < 4
    ensures Get(Downsampled(src, w, h), Half(w), qx, qy, c) == Box(src, w, h, qx, qy)[c]
  {
    BoxRowsAt(src, w, h, Half(h), qx, qy, c);
  }

  lemma UpsampledBlend(q: seq<byte>, w: nat, h: nat, x: nat, y: nat, c: nat)
    requires |q| >= Half(w) * Half(h) * 4 && x < w && y < h && c < 4
    ensures Get(Upsampled(q, w, h), w, x, y, c) == Blend(q, w, h, x, y)[c]
  {
    BlendRowsAt(q, w, h, h, x, y, c);
  }

  /** Where `Get` reads. */
  lemma GetAt(p: seq<byte>, w: nat, h: nat, x: nat, y: nat, c: nat)
    requires |p| >= w * h * 4 && x < w && y < h && c < 4
    ensures 4 * (y * w + x) + c < |p| && Get(p, w, x, y, c) == p[4 * (y * w + x) + c]
  {
    AtInside(w, h, x, y);
    assert At(w, x, y) == 4 * (y * w + x);
  }

  /** A quarter pixel is opaque, and each of its colours the sum over the two-by-two block, plus two, divided by four.
      In an odd-sized picture the last column or row stands in for the missing one. */
  lemma DownsampledAt(src: seq<byte>, w: nat, h: nat, qx: nat, qy: nat, c: nat)
    requires qx < (w + 1) / 2 && qy < (h + 1) / 2 && c < 4
    ensures var x1, y1 := if 2 * qx + 1 < w then 2 * qx + 1 else 2 * qx, if 2 * qy + 1 < h then 2 * qy + 1 else 2 * qy;
            Get(Downsampled(src, w, h), (w + 1) / 2, qx, qy, c)
            == if c == 3 then 255
               else (Get(src, w, 2 * qx, 2 * qy, c) + Get(src, w, x1, 2 * qy, c)
                     + Get(src, w, 2 * qx, y1, c) + Get(src, w, x1, y1, c) + 2) / 4
  {
    hide Get, Downsampled, At;
    DownsampledBox(src, w, h, qx, qy, c);
  }

  /** A full-size pixel is opaque. Its colours are those of the quarter pixel over it where both coordinates are even;
      where one is odd, the average with the next quarter pixel that way; where both are, the average of four. Past the
      last quarter pixel there is no next one, and that one counts twice. */
  lemma UpsampledAt(q: seq<byte>, w: nat, h: nat, x: nat, y: nat, c: nat)
    requires |q| >= (w + 1) / 2 * ((h + 1) / 2) * 4 && x < w && y < h && c < 4
    ensures var qw, qh := (w + 1) / 2, (h + 1) / 2;
            var x0, y0 := x / 2, y / 2;
            var x1, y1 := if x0 + 1 < qw then x0 + 1 else x0, if y0 + 1 < qh then y0 + 1 else y0;
            Get(Upsampled(q, w, h), w, x, y, c)
            == if c == 3 then 255
               else if x % 2 == 0 && y % 2 == 0 then Get(q, qw, x0, y0, c)
               else if y % 2 == 0 then (Get(q, qw, x0, y0, c) + Get(q, qw, x1, y0, c) + 1) / 2
               else if x % 2 == 0 then (Get(q, qw, x0, y0, c) + Get(q, qw, x0, y1, c) + 1) / 2
               else (Get(q, qw, x0, y0, c) + Get(q, qw, x1, y0, c)
                     + Get(q, qw, x0, y1, c) + Get(q, qw, x1, y1, c) + 2) / 4
  {
    hide Get, Upsampled, At;
    UpsampledBlend(q, w, h, x, y, c);
  }

  // ─── How far the round trip can be off ───────────────────────────────────

  /** (x', y') lies in one of the (at most four) 2x2 blocks that pixel (x, y) is reconstructed from. */
  predicate Feeds(x': nat, y': nat, x: nat, y: nat) {
    x / 2 <= x' / 2 <= (x + 1) / 2 && y / 2 <= y' / 2 <= (y + 1) / 2
  }

  /** Every source pixel that feeds (x, y) has its channel `c` between `lo` and `hi`. */
  ghost predicate LocallyWithin(src: seq<byte>, w: nat, h: nat, x: nat, y: nat, c: nat, lo: byte, hi: byte) {
    forall x', y' :: 0 <= x' < w && 0 <= y' < h && Feeds(x', y', x, y) ==> lo <= Get(src, w, x', y', c) <= hi
  }

  lemma AverageWithin(a: byte, b: byte, c: byte, d: byte, lo: byte, hi: byte)
    requires lo <= a <= hi && lo <= b <= hi && lo <= c <= hi && lo <= d <= hi
    ensures lo <= Average(a, b, c, d) <= hi
  {
  }

  lemma BoxWithin(src: seq<byte>, w: nat, h: nat, x: nat, y: nat, c: nat, lo: byte, hi: byte, qx: nat, qy: nat)
    requires c < 3 && LocallyWithin(src, w, h, x, y, c, lo, hi)
    requires qx < Half(w) && x / 2 <= qx <= (x + 1) / 2 && qy < Half(h) && y / 2 <= qy <= (y + 1) / 2
    ensures lo <= Get(Downsampled(src, w, h), Half(w), qx, qy, c) <= hi
  {
    hide Get, Average, Downsampled, BoxRows;
    var x0, y0 := 2 * qx, 2 * qy;
    var x1, y1 := Min(x0 + 1, w - 1), Min(y0 + 1, h - 1);
    assert Feeds(x0, y0, x, y) && Feeds(x1, y0, x, y) && Feeds(x0, y1, x, y) && Feeds(x1, y1, x, y);
    AverageWithin(Get(src, w, x0, y0, c), Get(src, w, x1, y0, c), Get(src, w, x0, y1, c), Get(src, w, x1, y1, c),
                  lo, hi);
    DownsampledBox(src, w, h, qx, qy, c);
  }

  lemma DownsampledSize(src: seq<byte>, w: nat, h: nat)
    ensures |Downsampled(src, w, h)| == Half(w) * Half(h) * 4
  {
    if 0 < w && 0 < h {
      BoxRowsSize(src, w, h, Half(h));
    }
  }

  /** Half-resolution error bound, for every size and colour channel: each reconstructed pixel lies within
      any bounds its source neighbourhood, itself included, lies within. */
  lemma RoundTripWithin(src: seq<byte>, w: nat, h: nat, x: nat, y: nat, c: nat, lo: byte, hi: byte)
    requires x < w && y < h && c < 3
    requires LocallyWithin(src, w, h, x, y, c, lo, hi)
    ensures lo <= Get(Upsampled(Downsampled(src, w, h), w, h), w, x, y, c) <= hi
    ensures lo <= Get(src, w, x, y, c) <= hi
  {
    hide Get, Average, Upsampled, BlendRows;
    var q, qw := Downsampled(src, w, h), Half(w);
    var x0, y0 := Min(x / 2, Half(w) - 1), Min(y / 2, Half(h) - 1);
    var x1, y1 := Min(x0 + x % 2, Half(w) - 1), Min(y0 + y % 2, Half(h) - 1);
    BoxWithin(src, w, h, x, y, c, lo, hi, x0, y0);
    BoxWithin(src, w, h, x, y, c, lo, hi, x1, y0);
    BoxWithin(src, w, h, x, y, c, lo, hi, x0, y1);
    BoxWithin(src, w, h, x, y, c, lo, hi, x1, y1);
    AverageWithin(Get(q, qw, x0, y0, c), Get(q, qw, x1, y0, c), Get(q, qw, x0, y1, c), Get(q, qw, x1, y1, c), lo, hi);
    DownsampledSize(src, w, h);
    UpsampledBlend(q, w, h, x, y, c);
    assert Feeds(x, y, x, y);
  }

  lemma UpsampledSize(q: seq<byte>, w: nat, h: nat)
    ensures |Upsampled(q, w, h)| == w * h * 4
    ensures |q| < (w + 1) / 2 * ((h + 1) / 2) * 4 ==> forall i :: 0 <= i < w * h * 4 ==> Upsampled(q, w, h)[i] == 0
  {
    if 0 < w && 0 < h {
      BlendRowsSize(q, w, h, h);
    }
  }

  /** In particular an area of one colour survives exactly. */
  lemma FlatAreaExact(src: seq<byte>, w: nat, h: nat, x: nat, y: nat, c: nat)
    requires x < w && y < h && c < 3
    requires forall x', y' :: 0 <= x' < w && 0 <= y' < h && Feeds(x', y', x, y) ==>
               Get(src, w, x', y', c) == Get(src, w, x, y, c)
    ensures Get(Upsampled(Downsampled(src, w, h), w, h), w, x, y, c) == Get(src, w, x, y, c)
  {
    hide Get;
    var v := Get(src, w, x, y, c);
    assert LocallyWithin(src, w, h, x, y, c, v, v);
    RoundTripWithin(src, w, h, x, y, c, v, v);
  }

  /** A dark picture with one bright channel in its first pixel. */
  function BrightCorner(w: nat, h: nat): (p: seq<byte>)
    ensures |p| == w * h * 4
  {
    seq(w * h * 4, i => if i == 0 then 255 else 0)
  }

  /** An isolated bright pixel does not survive, whatever the size: it fades into its block. */
  lemma BrightCornerFades(w: nat, h: nat)
    requires w >= 2 && h >= 2
    ensures var src := BrightCorner(w, h);
            var shown := Upsampled(Downsampled(src, w, h), w, h);
            |src| == |shown| >= 4 && src[0] == 255 && shown[0] == 64
  {
    hide Downsampled, Upsampled;
    var src := BrightCorner(w, h);
    UpsampledSize(Downsampled(src, w, h), w, h);
    AtInside(w, h, 0, 0);
    AtInside(w, h, 1, 0);
    AtInside(w, h, 0, 1);
    AtInside(w, h, 1, 1);
    DownsampledBox(src, w, h, 0, 0, 0);
    DownsampledSize(src, w, h);
    UpsampledBlend(Downsampled(src, w, h), w, h, 0, 0, 0);
  }
}
