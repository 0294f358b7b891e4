/** What pixel messages do to a framebuffer, one pixel at a time: each message overwrites a pixel or leaves it
    alone, so what a sequence shows at (x, y) is its last write there. */
module Screen {
  import opened Bytes
  import opened Wire

  datatype GfxFrame = GfxFrame(width: nat, height: nat, stride: nat, pixels: seq<byte>)

  datatype GfxSubframe = GfxSubframe(x: nat, y: nat, w: nat, h: nat, stride: nat, pixels: seq<byte>)

  /** The messages that reach the client's content area or its tab list. */
  datatype RenderEvent =
    | Frame(f: GfxFrame)
    | Subframe(s: GfxSubframe)
    | TabCreated(tabId: u32, url: Str)
    | TabClosed(tabId: u32)
    | TabActivated(tabId: u32)

  function FromProto(m: Message): Option<RenderEvent> {
    match m
    case RawFrame(_, w, h, stride, _, _, pixels) => Some(RenderEvent.Frame(GfxFrame(w, h, stride, pixels)))
    case Subframe(_, x, y, w, h, stride, _, _, pixels) =>
      Some(RenderEvent.Subframe(GfxSubframe(x, y, w, h, stride, pixels)))
    case TabCreated(id, _, url) => Some(RenderEvent.TabCreated(id, url))
    case TabClosed(id) => Some(RenderEvent.TabClosed(id))
    case TabActivated(id) => Some(RenderEvent.TabActivated(id))
    case _ => None
  }

  /** Which fields of which messages reach the client. */
  lemma EventFields(ts: u64, x: u16, y: u16, w: u16, h: u16, stride: u32, format: u32, c: byte, p: seq<byte>, id: u32,
                    title: Str, url: Str)
    ensures FromProto(RawFrame(ts, w, h, stride, format, c, p)) == Some(RenderEvent.Frame(GfxFrame(w, h, stride, p)))
    ensures FromProto(Message.Subframe(ts, x, y, w, h, stride, format, c, p))
         == Some(RenderEvent.Subframe(GfxSubframe(x, y, w, h, stride, p)))
    ensures FromProto(Message.TabCreated(id, title, url)) == Some(RenderEvent.TabCreated(id, url))
    ensures FromProto(Message.TabClosed(id)) == Some(RenderEvent.TabClosed(id))
    ensures FromProto(Message.TabActivated(id)) == Some(RenderEvent.TabActivated(id))
  {
  }

  /** Outside the last full frame the content area shows padding. */
  datatype Pixel = Pad | Bgra(b: byte, g: byte, r: byte, a: byte)

  function PixelAt(p: seq<byte>, stride: nat, x: nat, y: nat): Pixel {
    var o := y * stride + 4 * x;
    if o + 4 <= |p| then Bgra(p[o], p[o + 1], p[o + 2], p[o + 3]) else Pad
  }

  /** The client drops frames without area or without enough pixels. */
  predicate Accepted(ev: RenderEvent) {
    match ev
    case Frame(f) => f.width > 0 && f.height > 0 && |f.pixels| >= f.stride * f.height
    case Subframe(s) => s.w > 0 && s.h > 0 && |s.pixels| >= s.stride * s.h
    case _ => true
  }

  /** Rows do not overlap and hold all their pixels. */
  predicate Regular(ev: RenderEvent) {
    match ev
    case Frame(f) => f.stride >= 4 * f.width
    case Subframe(s) => s.stride >= 4 * s.w
    case _ => true
  }

  /** What `ev` puts at (x, y), if it touches that pixel. */
  function Writes(ev: RenderEvent, x: nat, y: nat): Option<Pixel> {
    if !Accepted(ev) then None
    else
      match ev
      case Frame(f) => Some(if x < f.width && y < f.height then PixelAt(f.pixels, f.stride, x, y) else Pad)
      case Subframe(s) =>
        if s.x <= x < s.x + s.w && s.y <= y < s.y + s.h then Some(PixelAt(s.pixels, s.stride, x - s.x, y - s.y))
        else None
      case _ => None
  }

  /** A later write wins. */
  function Over(before: Option<Pixel>, after: Option<Pixel>): Option<Pixel> {
    if after.Some? then after else before
  }

  function LastWrite(evs: seq<RenderEvent>, x: nat, y: nat): Option<Pixel> {
    if evs == [] then None
    else Over(LastWrite(evs[..|evs| - 1], x, y), Writes(evs[|evs| - 1], x, y))
  }

  lemma LastWriteAppend(evs: seq<RenderEvent>, ev: RenderEvent, x: nat, y: nat)
    ensures LastWrite(evs + [ev], x, y) == Over(LastWrite(evs, x, y), Writes(ev, x, y))
  {
    hide Writes;
    assert (evs + [ev])[..|evs|] == evs;
  }

  lemma {:induction false} LastWriteConcat(a: seq<RenderEvent>, b: seq<RenderEvent>, x: nat, y: nat)
    ensures LastWrite(a + b, x, y) == Over(LastWrite(a, x, y), LastWrite(b, x, y))
    decreases |b|
  {
    hide Writes;
    if b == [] {
      assert a + b == a;
    } else {
      LastWriteConcat(a, b[..|b| - 1], x, y);
      assert (a + b)[..|a + b| - 1] == a + b[..|b| - 1];
    }
  }

  function Effect(m: Message, x: nat, y: nat): Option<Pixel> {
    var ev := FromProto(m);
    if ev.Some? then Writes(ev.value, x, y) else None
  }

  /** What a sequence of messages shows at (x, y), if it has touched that pixel. */
  function Shows(ms: seq<Message>, x: nat, y: nat): Option<Pixel> {
    if ms == [] then None
    else Over(Shows(ms[..|ms| - 1], x, y), Effect(ms[|ms| - 1], x, y))
  }

  lemma {:induction false} ShowsConcat(a: seq<Message>, b: seq<Message>, x: nat, y: nat)
    ensures Shows(a + b, x, y) == Over(Shows(a, x, y), Shows(b, x, y))
    decreases |b|
  {
    hide Effect;
    if b == [] {
      assert a + b == a;
    } else {
      ShowsConcat(a, b[..|b| - 1], x, y);
      assert (a + b)[..|a + b| - 1] == a + b[..|b| - 1];
    }
  }

  lemma ShowsOne(m: Message, x: nat, y: nat)
    ensures Shows([m], x, y) == Effect(m, x, y)
  {
    assert [m][..0] == [];
  }

  /** Replaying any suffix of what has already been shown changes nothing. */
  lemma SuffixReplay(all: seq<Message>, j: nat, x: nat, y: nat)
    requires j <= |all|
    ensures Over(Shows(all, x, y), Shows(all[j..], x, y)) == Shows(all, x, y)
  {
    ShowsConcat(all[..j], all[j..], x, y);
    assert all[..j] + all[j..] == all;
  }

  function Events(ms: seq<Message>): seq<RenderEvent> {
    if ms == [] then []
    else
      var ev := FromProto(ms[|ms| - 1]);
      Events(ms[..|ms| - 1]) + if ev.Some? then [ev.value] else []
  }

  lemma {:induction false} ShowsIsLastWrite(ms: seq<Message>, x: nat, y: nat)
    ensures Shows(ms, x, y) == LastWrite(Events(ms), x, y)
  {
    hide Writes, FromProto;
    if ms != [] {
      var init := ms[..|ms| - 1];
      ShowsIsLastWrite(init, x, y);
      var ev := FromProto(ms[|ms| - 1]);
      if ev.Some? {
        assert Events(ms)[..|Events(init)|] == Events(init);
      } else {
        assert Events(init) + [] == Events(init);
      }
    }
  }
}
