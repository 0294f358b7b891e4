/** What the client has queued and not yet painted, and painting it. Frames and subframes are queued as they
    arrive and composited in one pass; the result must not depend on when the passes happen. */
module Compositor {
  import opened Bytes
  import opened Wire
  import opened Screen
  import opened Framebuffer

  /** Rows of the window that belong to the tab bar, the navigation bar and the bookmarks bar. */
  const CHROME_H := 32 + 38 + 26

  /** `pending_frames`, `pending_subframes` and `full_content_dirty`. */
  datatype Backlog = Backlog(frames: seq<GfxFrame>, subs: seq<GfxSubframe>, dirty: bool)

  const CLEAN := Backlog([], [], false)

  function SubEvents(subs: seq<GfxSubframe>): seq<RenderEvent> {
    seq(|subs|, i requires 0 <= i < |subs| => RenderEvent.Subframe(subs[i]))
  }

  /** What lies below the subframes: the newest frame, or padding if the area was declared stale. */
  function Base(b: Backlog, x: nat, y: nat): Option<Pixel> {
    if b.frames != [] then Writes(RenderEvent.Frame(b.frames[|b.frames| - 1]), x, y)
    else if b.dirty then Some(Pad)
    else None
  }

  /** What the subframes put at (x, y), the newest last. */
  function Above(subs: seq<GfxSubframe>, x: nat, y: nat): Option<Pixel> {
    LastWrite(SubEvents(subs), x, y)
  }

  /** What painting the backlog puts at content pixel (x, y), if it touches that pixel. */
  function Paints(b: Backlog, x: nat, y: nat): Option<Pixel> {
    Over(Base(b, x, y), Above(b.subs, x, y))
  }

  /** The backlog after one more event; a full frame makes everything queued before it irrelevant. */
  function Enqueue(b: Backlog, ev: RenderEvent): Backlog {
    if !Accepted(ev) then b
    else
      match ev
      case Frame(f) => Backlog([f], [], true)
      case Subframe(s) => b.(subs := b.subs + [s])
      case _ => b
  }

  /** A frame with an area and enough bytes replaces everything queued and marks the whole content area; such a subframe
      is queued last; everything else is refused or none of the queue's business. */
  lemma EnqueueEffects(b: Backlog, ev: RenderEvent)
    ensures var b' := Enqueue(b, ev);
            match ev
            case Frame(f) =>
              b' == if f.width > 0 && f.height > 0 && |f.pixels| >= f.stride * f.height then Backlog([f], [], true)
                    else b
            case Subframe(s) =>
              b' == if s.w > 0 && s.h > 0 && |s.pixels| >= s.stride * s.h then Backlog(b.frames, b.subs + [s], b.dirty)
                    else b
            case _ => b' == b
  {
  }

  lemma AboveNone()
    ensures forall x, y :: Above([], x, y).None?
  {
  }

  lemma AboveAppend(subs: seq<GfxSubframe>, s: GfxSubframe, x: nat, y: nat)
    ensures Above(subs + [s], x, y) == Over(Above(subs, x, y), Writes(RenderEvent.Subframe(s), x, y))
  {
    hide Writes;
    var all := SubEvents(subs + [s]);
    assert all[..|subs|] == SubEvents(subs);
    assert all[|subs|] == RenderEvent.Subframe(s);
  }

  /** Queueing an event has, once painted, the effect of that event alone. */
  lemma EnqueuePaints(b: Backlog, ev: RenderEvent, x: nat, y: nat)
    ensures Paints(Enqueue(b, ev), x, y) == Over(Paints(b, x, y), Writes(ev, x, y))
  {
    hide PixelAt;
    if Accepted(ev) && ev.Subframe? {
      AboveAppend(b.subs, ev.s, x, y);
    }
  }

  // ─── What painting leaves, in bytes ──────────────────────────────────────

  predicate Under(s: GfxSubframe, x: nat, y: nat) {
    s.x <= x < s.x + s.w && s.y <= y < s.y + s.h
  }

  /** Of the subframes over (x, y), number `i` came last. */
  ghost predicate OnTop(subs: seq<GfxSubframe>, i: nat, x: nat, y: nat) {
    && i < |subs| && Under(subs[i], x, y)
    && forall j :: i < j < |subs| ==> !Under(subs[j], x, y)
  }

  /** `v` is its pixel there. */
  ghost predicate TopShows(subs: seq<GfxSubframe>, i: nat, x: nat, y: nat, v: u32) {
    && OnTop(subs, i, x, y)
    && var s := subs[i];
       IsBgr(v, s.pixels, (y - s.y) * s.stride + 4 * (x - s.x))
  }

  /** `v` holds the bytes that the backlog prescribes at (x, y): of the last subframe there, else of the newest frame,
      else padding, beside a frame or where the area was declared stale, else the word `was` that was there. */
  ghost predicate Prescribed(b: Backlog, x: nat, y: nat, v: u32, was: u32) {
    if exists i: nat :: OnTop(b.subs, i, x, y) then
      exists i: nat :: TopShows(b.subs, i, x, y, v)
    else if b.frames == [] then v == if b.dirty then 0x0F0F12 else was
    else
      var f := b.frames[|b.frames| - 1];
      if x < f.width && y < f.height then IsBgr(v, f.pixels, y * f.stride + 4 * x) else v == 0x0F0F12
  }

  // ─── Painting ────────────────────────────────────────────────────────────

  predicate Paintable(ev: RenderEvent) {
    Accepted(ev) && Regular(ev)
  }

  function Mixed(p: Option<Pixel>, was: u32): u32 {
    if p.Some? then Word(p.value) else was
  }

  lemma {:induction false} AboveIsTop(subs: seq<GfxSubframe>, x: nat, y: nat)
    requires forall s :: s in subs ==> Paintable(RenderEvent.Subframe(s))
    ensures Above(subs, x, y).None? ==> forall i: nat :: !OnTop(subs, i, x, y)
    ensures Above(subs, x, y).Some? ==> exists i: nat :: OnTop(subs, i, x, y)
    ensures forall i: nat :: OnTop(subs, i, x, y) ==>
              Above(subs, x, y) == Some(PixelAt(subs[i].pixels, subs[i].stride, x - subs[i].x, y - subs[i].y))
  {
    hide PixelAt, Above;
    if subs == [] {
      AboveNone();
      assert forall i: nat :: !OnTop(subs, i, x, y);
    } else {
      var n := |subs| - 1;
      AboveIsTop(subs[..n], x, y);
      AboveAppend(subs[..n], subs[n], x, y);
      assert subs == subs[..n] + [subs[n]];
      assert Paintable(RenderEvent.Subframe(subs[n]));
      if Under(subs[n], x, y) {
        assert OnTop(subs, n, x, y);
      } else {
        forall i: nat
          ensures OnTop(subs, i, x, y) <==> OnTop(subs[..n], i, x, y)
        {
        }
      }
    }
  }

  lemma RowInside(p: seq<byte>, stride: nat, w: nat, h: nat, row: nat, n: nat)
    requires |p| >= stride * h && stride >= 4 * w && row < h && n <= w
    ensures row * stride + 4 * n <= |p|
  {
    assert (row + 1) * stride <= stride * h;
  }

  lemma PixelBgr(p: seq<byte>, stride: nat, w: nat, h: nat, x: nat, y: nat)
    requires |p| >= stride * h && stride >= 4 * w && x < w && y < h
    ensures IsBgr(Word(PixelAt(p, stride, x, y)), p, y * stride + 4 * x)
  {
    RowInside(p, stride, w, h, y, w);
    WordBytes(p, stride, x, y);
  }

  lemma SubShown(subs: seq<GfxSubframe>, i: nat, x: nat, y: nat)
    requires OnTop(subs, i, x, y) && forall s :: s in subs ==> Paintable(RenderEvent.Subframe(s))
    ensures Above(subs, x, y).Some? && TopShows(subs, i, x, y, Word(Above(subs, x, y).value))
  {
    hide IsBgr, PixelAt, Word, Above;
    AboveIsTop(subs, x, y);
    var s := subs[i];
    assert Paintable(RenderEvent.Subframe(s));
    PixelBgr(s.pixels, s.stride, s.w, s.h, x - s.x, y - s.y);
  }

  lemma BasePrescribed(b: Backlog, x: nat, y: nat, was: u32)
    requires forall f :: f in b.frames ==> Paintable(RenderEvent.Frame(f))
    requires forall i: nat :: !OnTop(b.subs, i, x, y)
    ensures Prescribed(b, x, y, Mixed(Base(b, x, y), was), was)
  {
    hide IsBgr, PixelAt, OnTop, Word;
    WordOfPad();
    if b.frames != [] {
      var f := b.frames[|b.frames| - 1];
      assert Paintable(RenderEvent.Frame(f));
      if x < f.width && y < f.height {
        PixelBgr(f.pixels, f.stride, f.width, f.height, x, y);
      }
    }
  }

  /** Painting leaves exactly what the backlog prescribes. */
  lemma PaintsPrescribed(b: Backlog, x: nat, y: nat, was: u32)
    requires forall f :: f in b.frames ==> Paintable(RenderEvent.Frame(f))
    requires forall s :: s in b.subs ==> Paintable(RenderEvent.Subframe(s))
    ensures Prescribed(b, x, y, Mixed(Paints(b, x, y), was), was)
  {
    hide IsBgr, Above, Word, Base, Paintable, OnTop, TopShows;
    AboveIsTop(b.subs, x, y);
    if Above(b.subs, x, y).Some? {
      var i: nat :| OnTop(b.subs, i, x, y);
      SubShown(b.subs, i, x, y);
    } else {
      BasePrescribed(b, x, y, was);
    }
  }

  /** A row cut out of the payload holds that row's pixels. */
  lemma RowPixels(p: seq<byte>, stride: nat, row: nat, n: nat, x: nat)
    requires row * stride + 4 * n <= |p| && x < n
    ensures PixelAt(p[row * stride..row * stride + 4 * n], 0, x, 0) == PixelAt(p, stride, x, row)
    ensures PixelAt(p, stride, x, row).Bgra?
  {
  }

  /** Copy `n` pixels of payload row `row` to window row `to`, from column `x0` on. */
  method PaintRow(buf: array<u32>, bw: nat, bh: nat, x0: nat, to: nat, p: seq<byte>, stride: nat, row: nat, n: nat)
    requires bw * bh <= buf.Length && to < bh && x0 + n <= bw
    requires row * stride + 4 * n <= |p|
    modifies buf
    ensures forall x, y :: 0 <= x < bw && 0 <= y < bh ==>
              Cell(buf, bw, x, y) == if y == to && x0 <= x < x0 + n then Word(PixelAt(p, stride, x - x0, row))
                                     else old(Cell(buf, bw, x, y))
    ensures Beyond(buf, bw, bh)
  {
    hide Cell, PixelAt, Word, Beyond, IsBgr;
    BlitSpan(buf, bw, bh, x0, to, p[row * stride..row * stride + 4 * n]);
    forall x, y | 0 <= x < bw && 0 <= y < bh
      ensures Cell(buf, bw, x, y) == if y == to && x0 <= x < x0 + n then Word(PixelAt(p, stride, x - x0, row))
                                     else old(Cell(buf, bw, x, y))
    {
      if y == to && x0 <= x < x0 + n {
        BgrIsWord(Cell(buf, bw, x, y), p[row * stride..row * stride + 4 * n], 0, x - x0, 0);
        RowPixels(p, stride, row, n, x - x0);
      }
    }
  }

  predicate InBounds(damage: seq<DamageRect>, bw: nat, bh: nat) {
    forall i :: 0 <= i < |damage| ==> damage[i].x + damage[i].w <= bw && damage[i].y + damage[i].h <= bh
  }

  predicate Damaged(damage: seq<DamageRect>, x: nat, y: nat) {
    exists i :: 0 <= i < |damage| && Damages(damage[i], x, y)
  }

  lemma NoneDamaged()
    ensures forall x, y :: !Damaged([], x, y)
  {
  }

  lemma OneDamaged(d: DamageRect, x: nat, y: nat)
    ensures Damaged([d], x, y) <==> Damages(d, x, y)
  {
    assert [d][0] == d;
  }

  lemma DamagedAppend(a: seq<DamageRect>, b: seq<DamageRect>, x: nat, y: nat)
    ensures Damaged(a + b, x, y) <==> Damaged(a, x, y) || Damaged(b, x, y)
  {
    if Damaged(a, x, y) {
      var i :| 0 <= i < |a| && Damages(a[i], x, y);
      assert Damages((a + b)[i], x, y);
    }
    if Damaged(b, x, y) {
      var i :| 0 <= i < |b| && Damages(b[i], x, y);
      assert Damages((a + b)[|a| + i], x, y);
    }
  }

  lemma MoreDamage(a: seq<DamageRect>, b: seq<DamageRect>, bw: nat, bh: nat)
    requires InBounds(a, bw, bh) && InBounds(b, bw, bh)
    ensures InBounds(a + b, bw, bh)
    ensures forall x, y :: Damaged(a + b, x, y) <==> Damaged(a, x, y) || Damaged(b, x, y)
  {
    forall x, y
      ensures Damaged(a + b, x, y) <==> Damaged(a, x, y) || Damaged(b, x, y)
    {
      DamagedAppend(a, b, x, y);
    }
  }

  /** The newest pending frame fills the content area, with padding to its right and below it. */
  method PaintFrame(buf: array<u32>, bw: nat, bh: nat, f: GfxFrame)
    requires bw * bh <= buf.Length && CHROME_H < bh
    requires Paintable(RenderEvent.Frame(f))
    modifies buf
    ensures forall x, y :: 0 <= x < bw && 0 <= y < bh ==>
              Cell(buf, bw, x, y) == if y < CHROME_H then old(Cell(buf, bw, x, y))
                                     else Mixed(Writes(RenderEvent.Frame(f), x, y - CHROME_H), 0)
    ensures Beyond(buf, bw, bh)
  {
    hide Cell, PixelAt;
    var copyW, copyH := Min(f.width, bw), Min(f.height, bh - CHROME_H);
    for row := 0 to copyH
      invariant forall x, y :: 0 <= x < bw && 0 <= y < bh ==>
                  Cell(buf, bw, x, y) == if CHROME_H <= y < CHROME_H + row
                                         then Mixed(Writes(RenderEvent.Frame(f), x, y - CHROME_H), 0)
                                         else old(Cell(buf, bw, x, y))
      invariant Beyond(buf, bw, bh)
    {
      RowInside(f.pixels, f.stride, f.width, f.height, row, copyW);
      PaintRow(buf, bw, bh, 0, CHROME_H + row, f.pixels, f.stride, row, copyW);
      if copyW < bw {
        FillSpan(buf, bw, bh, copyW, bw - copyW, CHROME_H + row, PADDING);
      }
    }
    if copyH < bh - CHROME_H {
      FillRows(buf, bw, bh, CHROME_H + copyH, PADDING);
    }
  }

  /** One subframe, clipped to the content area. */
  method PaintSubframe(buf: array<u32>, bw: nat, bh: nat, s: GfxSubframe) returns (damage: seq<DamageRect>)
    requires bw * bh <= buf.Length && CHROME_H < bh
    requires Paintable(RenderEvent.Subframe(s))
    modifies buf
    ensures forall x, y :: 0 <= x < bw && 0 <= y < bh ==>
              Cell(buf, bw, x, y) == if y < CHROME_H then old(Cell(buf, bw, x, y))
                                     else Mixed(Writes(RenderEvent.Subframe(s), x, y - CHROME_H),
                                                old(Cell(buf, bw, x, y)))
    ensures Beyond(buf, bw, bh)
    ensures InBounds(damage, bw, bh)
    ensures forall x, y :: 0 <= x < bw && 0 <= y < bh ==>
              (Damaged(damage, x, y) <==> y >= CHROME_H && Writes(RenderEvent.Subframe(s), x, y - CHROME_H).Some?)
  {
    hide Cell, PixelAt, Damaged;
    var contentH := bh - CHROME_H;
    var x0, y0 := Min(s.x, bw), Min(s.y, contentH);
    var x1, y1 := Min(s.x + s.w, bw), Min(s.y + s.h, contentH);
    if x1 <= x0 || y1 <= y0 {
      damage := [];
      NoneDamaged();
      return;
    }
    var copyW, copyH := x1 - x0, y1 - y0;
    for row := 0 to copyH
      invariant forall x, y :: 0 <= x < bw && 0 <= y < bh ==>
                  Cell(buf, bw, x, y) == if CHROME_H + y0 <= y < CHROME_H + y0 + row
                                         then Mixed(Writes(RenderEvent.Subframe(s), x, y - CHROME_H),
                                                    old(Cell(buf, bw, x, y)))
                                         else old(Cell(buf, bw, x, y))
      invariant Beyond(buf, bw, bh)
    {
      RowInside(s.pixels, s.stride, s.w, s.h, row, copyW);
      PaintRow(buf, bw, bh, x0, CHROME_H + y0 + row, s.pixels, s.stride, row, copyW);
    }
    damage := [DamageRect(x0, CHROME_H + y0, copyW, copyH)];
    forall x, y | 0 <= x < bw && 0 <= y < bh
      ensures Damaged(damage, x, y) <==> y >= CHROME_H && Writes(RenderEvent.Subframe(s), x, y - CHROME_H).Some?
    {
      OneDamaged(damage[0], x, y);
    }
  }

  /** Below the subframes: the newest frame, or padding where the area was declared stale. */
  method PaintBase(buf: array<u32>, bw: nat, bh: nat, b: Backlog) returns (damage: seq<DamageRect>)
    requires bw * bh <= buf.Length && CHROME_H < bh
    requires forall f :: f in b.frames ==> Paintable(RenderEvent.Frame(f))
    modifies buf
    ensures forall x, y :: 0 <= x < bw && 0 <= y < bh ==>
              Cell(buf, bw, x, y) == if y < CHROME_H then old(Cell(buf, bw, x, y))
                                     else Mixed(Base(b, x, y - CHROME_H), old(Cell(buf, bw, x, y)))
    ensures Beyond(buf, bw, bh)
    ensures InBounds(damage, bw, bh)
    ensures forall x, y :: 0 <= x < bw && 0 <= y < bh ==>
              (Damaged(damage, x, y) <==> y >= CHROME_H && Base(b, x, y - CHROME_H).Some?)
  {
    hide Cell, Damaged, PixelAt;
    NoneDamaged();
    damage := [];
    if b.frames == [] && !b.dirty {
      return;
    }
    if b.frames != [] {
      PaintFrame(buf, bw, bh, b.frames[|b.frames| - 1]);
    } else {
      FillRows(buf, bw, bh, CHROME_H, PADDING);
    }
    damage := [DamageRect(0, CHROME_H, bw, bh - CHROME_H)];
    forall x, y | 0 <= x < bw && 0 <= y < bh
      ensures Damaged(damage, x, y) <==> y >= CHROME_H
    {
      OneDamaged(damage[0], x, y);
    }
  }

  /** The queued subframes, oldest first. */
  method PaintSubframes(buf: array<u32>, bw: nat, bh: nat, subs: seq<GfxSubframe>) returns (damage: seq<DamageRect>)
    requires bw * bh <= buf.Length && CHROME_H < bh
    requires forall s :: s in subs ==> Paintable(RenderEvent.Subframe(s))
    modifies buf
    ensures forall x, y :: 0 <= x < bw && 0 <= y < bh ==>
              Cell(buf, bw, x, y) == if y < CHROME_H then old(Cell(buf, bw, x, y))
                                     else Mixed(Above(subs, x, y - CHROME_H), old(Cell(buf, bw, x, y)))
    ensures Beyond(buf, bw, bh)
    ensures InBounds(damage, bw, bh)
    ensures forall x, y :: 0 <= x < bw && 0 <= y < bh ==>
              (Damaged(damage, x, y) <==> y >= CHROME_H && Above(subs, x, y - CHROME_H).Some?)
  {
    hide Cell, Damaged, Writes, Above;
    NoneDamaged();
    AboveNone();
    damage := [];
    for k := 0 to |subs|
      invariant forall x, y :: 0 <= x < bw && 0 <= y < bh ==>
                  Cell(buf, bw, x, y) == if y < CHROME_H then old(Cell(buf, bw, x, y))
                                         else Mixed(Above(subs[..k], x, y - CHROME_H), old(Cell(buf, bw, x, y)))
      invariant Beyond(buf, bw, bh)
      invariant InBounds(damage, bw, bh)
      invariant forall x, y :: 0 <= x < bw && 0 <= y < bh ==>
                  (Damaged(damage, x, y) <==> y >= CHROME_H && Above(subs[..k], x, y - CHROME_H).Some?)
    {
      var d := PaintSubframe(buf, bw, bh, subs[k]);
      MoreDamage(damage, d, bw, bh);
      damage := damage + d;
      assert subs[..k + 1] == subs[..k] + [subs[k]];
      forall x: nat, y: nat
        ensures Above(subs[..k + 1], x, y) == Over(Above(subs[..k], x, y), Writes(RenderEvent.Subframe(subs[k]), x, y))
      {
        AboveAppend(subs[..k], subs[k], x, y);
      }
    }
    assert subs[..|subs|] == subs;
  }

  /** The whole content area, from the backlog alone. */
  method PaintContent(buf: array<u32>, bw: nat, bh: nat, b: Backlog) returns (damage: seq<DamageRect>)
    requires bw * bh <= buf.Length && CHROME_H < bh
    requires forall f :: f in b.frames ==> Paintable(RenderEvent.Frame(f))
    requires forall s :: s in b.subs ==> Paintable(RenderEvent.Subframe(s))
    modifies buf
    ensures forall x, y :: 0 <= x < bw && 0 <= y < bh ==>
              Cell(buf, bw, x, y) == if y < CHROME_H then old(Cell(buf, bw, x, y))
                                     else Mixed(Paints(b, x, y - CHROME_H), old(Cell(buf, bw, x, y)))
    ensures Beyond(buf, bw, bh)
    ensures InBounds(damage, bw, bh)
    ensures forall x, y :: 0 <= x < bw && 0 <= y < bh ==>
              (Damaged(damage, x, y) <==> y >= CHROME_H && Paints(b, x, y - CHROME_H).Some?)
  {
    hide Cell, Damaged, Base, Above;
    var d1 := PaintBase(buf, bw, bh, b);
    var d2 := PaintSubframes(buf, bw, bh, b.subs);
    MoreDamage(d1, d2, bw, bh);
    damage := d1 + d2;
  }
}
