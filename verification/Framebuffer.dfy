/** A flat word buffer seen as a window of pixels: rows are copied and filled column by column. */
module Framebuffer {
  import opened Bytes
  import opened Screen

  const PADDING: u32 := 0x0F0F12

  /** `0x00RRGGBB` */
  function Word(p: Pixel): u32 {
    match p
    case Pad => PADDING
    case Bgra(b, g, r, _) => b + 0x100 * (g as int) + 0x1_0000 * (r as int)
  }

  /** `v` is 0x00RRGGBB for the blue, green and red byte at offset `o`. */
  predicate IsBgr(v: u32, p: seq<byte>, o: nat) {
    && o + 4 <= |p| && v < 0x100_0000
    && v % 0x100 == p[o] && v / 0x100 % 0x100 == p[o + 1] && v / 0x1_0000 == p[o + 2]
  }

  /** A word holds the pixel's first byte lowest, then the second and the third, and nothing of the fourth. */
  lemma WordBytes(p: seq<byte>, stride: nat, x: nat, y: nat)
    requires y * stride + 4 * x + 4 <= |p|
    ensures var (v, o) := (Word(PixelAt(p, stride, x, y)), y * stride + 4 * x);
            && v < 0x100_0000
            && v % 0x100 == p[o] && v / 0x100 % 0x100 == p[o + 1] && v / 0x1_0000 == p[o + 2]
  {
    var o := y * stride + 4 * x;
    var g: int, r: int := p[o + 1], p[o + 2];
    assert p[o] + 0x100 * g + 0x1_0000 * r == p[o] + 0x100 * (g + 0x100 * r);
  }

  lemma WordOfPad()
    ensures Word(Pad) == 0x0F0F12
  {
  }

  datatype DamageRect = DamageRect(x: nat, y: nat, w: nat, h: nat)

  predicate Damages(d: DamageRect, x: nat, y: nat) {
    d.x <= x < d.x + d.w && d.y <= y < d.y + d.h
  }

  // ─── Rows of a flat buffer ───────────────────────────────────────────────

  /** Where pixel (x, y) of a window `bw` wide is kept. */
  function At(bw: nat, x: nat, y: nat): nat {
    y * bw + x
  }

  lemma AtInside(bw: nat, bh: nat, x: nat, y: nat)
    requires x < bw && y < bh
    ensures At(bw, x, y) < bw * bh && At(bw, 0, y) + bw <= bw * bh
  {
    assert (y + 1) * bw <= bh * bw;
  }

  /** Cells `lo` to `lo + n - 1` of row `row` are exactly those of columns `x0` to `x0 + n - 1`. */
  lemma InSpan(bw: nat, x: nat, y: nat, x0: nat, n: nat, row: nat)
    requires x < bw && x0 + n <= bw
    ensures At(bw, x0, row) <= At(bw, x, y) < At(bw, x0, row) + n <==> y == row && x0 <= x < x0 + n
    ensures y == row ==> At(bw, x, y) - At(bw, x0, row) == x - x0
  {
    if y < row {
      assert (y + 1) * bw <= row * bw;
    } else if y > row {
      assert (row + 1) * bw <= y * bw;
    }
  }

  function Cell(buf: array<u32>, bw: nat, x: nat, y: nat): u32
    reads buf
  {
    if At(bw, x, y) < buf.Length then buf[At(bw, x, y)] else 0
  }

  /** Nothing beyond the window is touched. */
  twostate predicate Beyond(buf: array<u32>, bw: nat, bh: nat)
    reads buf
  {
    forall i :: bw * bh <= i < buf.Length ==> buf[i] == old(buf[i])
  }

  lemma BgrWord(p: seq<byte>, o: nat)
    requires o + 4 <= |p|
    ensures IsBgr(p[o] + 0x100 * (p[o + 1] as int) + 0x1_0000 * (p[o + 2] as int), p, o)
  {
    var g: int, r: int := p[o + 1], p[o + 2];
    assert p[o] + 0x100 * g + 0x1_0000 * r == p[o] + 0x100 * (g + 0x100 * r);
  }

  /** Those bytes determine the word. */
  lemma BgrIsWord(v: u32, p: seq<byte>, stride: nat, x: nat, y: nat)
    requires IsBgr(v, p, y * stride + 4 * x)
    ensures v == Word(PixelAt(p, stride, x, y))
  {
  }

  /** `copy_bgra_row_to_u32` into columns `x0..` of row `row`. */
  method BlitSpan(buf: array<u32>, bw: nat, bh: nat, x0: nat, row: nat, src: seq<byte>)
    requires bw * bh <= buf.Length && row < bh && x0 + |src| / 4 <= bw
    modifies buf
    ensures forall x, y :: 0 <= x < bw && 0 <= y < bh ==>
              if y == row && x0 <= x < x0 + |src| / 4 then IsBgr(Cell(buf, bw, x, y), src, 4 * (x - x0))
              else Cell(buf, bw, x, y) == old(Cell(buf, bw, x, y))
    ensures Beyond(buf, bw, bh)
  {
    hide IsBgr;
    var n := |src| / 4;
    var lo := At(bw, x0, row);
    if n == 0 {
      return;
    }
    AtInside(bw, bh, x0, row);
    for i := 0 to n
      invariant forall k :: 0 <= k < buf.Length ==>
                  if lo <= k < lo + i then IsBgr(buf[k], src, 4 * (k - lo)) else buf[k] == old(buf[k])
    {
      BgrWord(src, 4 * i);
      buf[lo + i] := src[4 * i] + 0x100 * (src[4 * i + 1] as int) + 0x1_0000 * (src[4 * i + 2] as int);
    }
    forall x, y | 0 <= x < bw && 0 <= y < bh
      ensures if y == row && x0 <= x < x0 + n then IsBgr(Cell(buf, bw, x, y), src, 4 * (x - x0))
              else Cell(buf, bw, x, y) == old(Cell(buf, bw, x, y))
    {
      InSpan(bw, x, y, x0, n, row);
    }
  }

  /** `fill(color)` over columns `x0..x0 + n` of row `row`. */
  method FillSpan(buf: array<u32>, bw: nat, bh: nat, x0: nat, n: nat, row: nat, color: u32)
    requires bw * bh <= buf.Length && row < bh && x0 + n <= bw
    modifies buf
    ensures forall x, y :: 0 <= x < bw && 0 <= y < bh ==>
              Cell(buf, bw, x, y) == if y == row && x0 <= x < x0 + n then color else old(Cell(buf, bw, x, y))
    ensures Beyond(buf, bw, bh)
  {
    if n == 0 {
      return;
    }
    AtInside(bw, bh, x0, row);
    var lo := At(bw, x0, row);
    for i := 0 to n
      invariant forall k :: 0 <= k < buf.Length ==> buf[k] == if lo <= k < lo + i then color else old(buf[k])
    {
      buf[lo + i] := color;
    }
    forall x, y | 0 <= x < bw && 0 <= y < bh
      ensures Cell(buf, bw, x, y) == if y == row && x0 <= x < x0 + n then color else old(Cell(buf, bw, x, y))
    {
      InSpan(bw, x, y, x0, n, row);
    }
  }

  /** Cells from the start of row `row` on are exactly those of the rows from there on. */
  lemma InRows(bw: nat, bh: nat, x: nat, y: nat, row: nat)
    requires x < bw && y < bh && row <= bh
    ensures row * bw <= At(bw, x, y) < bw * bh <==> y >= row
    ensures At(bw, x, y) < bw * bh
  {
    AtInside(bw, bh, x, y);
    if y >= row {
      assert y * bw >= row * bw;
    } else {
      assert (y + 1) * bw <= row * bw;
    }
  }

  lemma RowsFit(bw: nat, bh: nat, row: nat)
    requires row <= bh
    ensures row * bw <= bw * bh
  {
  }

  /** `fill(color)` from the start of row `row` to the end of the window. */
  method FillRows(buf: array<u32>, bw: nat, bh: nat, row: nat, color: u32)
    requires bw * bh <= buf.Length && row <= bh
    modifies buf
    ensures forall x, y :: 0 <= x < bw && 0 <= y < bh ==>
              Cell(buf, bw, x, y) == if y >= row then color else old(Cell(buf, bw, x, y))
    ensures Beyond(buf, bw, bh)
  {
    hide At;
    var start, needed := row * bw, bw * bh;
    RowsFit(bw, bh, row);
    for i := start to needed
      invariant forall k :: 0 <= k < buf.Length ==> buf[k] == if start <= k < i then color else old(buf[k])
    {
      buf[i] := color;
    }
    forall x, y | 0 <= x < bw && 0 <= y < bh
      ensures Cell(buf, bw, x, y) == if y >= row then color else old(Cell(buf, bw, x, y))
    {
      InRows(bw, bh, x, y, row);
    }
  }

  /** Rows `0..rows` are replaced by `image`, row by row. */
  method BlitRows(buf: array<u32>, bw: nat, bh: nat, rows: nat, image: seq<u32>)
    requires bw * bh <= buf.Length && rows <= bh && |image| == rows * bw
    modifies buf
    ensures forall x, y :: 0 <= x < bw && 0 <= y < bh ==>
              Cell(buf, bw, x, y) == if y < rows && At(bw, x, y) < |image| then image[At(bw, x, y)]
                                     else old(Cell(buf, bw, x, y))
    ensures Beyond(buf, bw, bh)
  {
    hide At;
    RowsFit(bw, bh, rows);
    for i := 0 to |image|
      invariant forall k :: 0 <= k < buf.Length ==> buf[k] == if k < i then image[k] else old(buf[k])
    {
      buf[i] := image[i];
    }
    forall x, y | 0 <= x < bw && 0 <= y < bh
      ensures Cell(buf, bw, x, y) == if y < rows && At(bw, x, y) < |image| then image[At(bw, x, y)]
                                     else old(Cell(buf, bw, x, y))
    {
      InRows(bw, bh, x, y, rows);
    }
  }
}
