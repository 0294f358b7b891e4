/** From the host's frames to the client's framebuffer: capture, differencing, fan-out, encoding, the byte stream,
    decoding, queueing and painting together. */
module EndToEnd {
  import opened Bytes
  import opened Wire
  import opened Screen
  import opened Framing
  import opened Streams
  import opened Host
  import opened Mirror
  import opened Fanout
  import opened Framebuffer
  import opened Compositor
  import opened Schedule
  import opened Tabs
  import opened Client
  import opened WindowLoop
  import HalfRes
  import WebSocket
  import PixelPayload

  // ─── What compression loses ──────────────────────────────────────────────

  /** The receiver sees what was published. */
  ghost predicate Faithful(m: Message) {
    forall x, y :: Effect(Received(m), x, y) == Effect(m, x, y)
  }

  lemma SmallIsFaithful(m: Message)
    requires IsSound(m) && (m.Subframe? ==> m.w * m.h < 96_000)
    ensures Faithful(m)
  {
    hide Accepted, Regular, Received, FromProto, Writes;
    WebSocket.TcpEvent(m);
  }

  function Bright(w: u16, h: u16): Message {
    Message.Subframe(0, 0, 0, w, h, 4 * w, 0, PixelPayload.LZ4_DELTA_Q2, HalfRes.BrightCorner(w, h))
  }

  lemma BrightIsSound(w: u16, h: u16)
    requires w * h >= 96_000
    ensures IsSound(Bright(w, h))
  {
    hide HalfRes.BrightCorner;
    var m := Bright(w, h);
    assert w > 0 && h > 0;
    assert |m.pixels| == w * h * 4 == (4 * w) * h;
  }

  lemma FirstPixel(m: Message)
    requires m.Subframe? && m.x == 0 && m.y == 0 && IsDrawn(m) && |m.pixels| >= 4
    ensures Effect(m, 0, 0) == Some(Bgra(m.pixels[0], m.pixels[1], m.pixels[2], m.pixels[3]))
  {
  }

  lemma ReceivedDrawn(m: Message)
    requires m.Subframe? && IsDrawn(m) && |Received(m).pixels| == |m.pixels|
    ensures IsDrawn(Received(m))
  {
    hide PixelPayload.Shown;
  }

  lemma LargeFades(w: u16, h: u16)
    requires w * h >= 96_000
    ensures IsSound(Bright(w, h)) && !Faithful(Bright(w, h))
  {
    hide HalfRes.Downsampled, HalfRes.Upsampled, HalfRes.BrightCorner, IsSound, Effect, IsDrawn;
    var m := Bright(w, h);
    assert w >= 2 && h >= 2;
    BrightIsSound(w, h);
    SoundDrawn(m);
    HalfRes.BrightCornerFades(w, h);
    ReceivedDrawn(m);
    FirstPixel(m);
    FirstPixel(Received(m));
  }

  /** On the compressed feeds every picture the host sends in regions of one size arrives unchanged if and only if
      the size is below the half-resolution threshold. */
  lemma LosslessBelowThreshold(w: u16, h: u16)
    ensures (forall m: Message :: IsSound(m) && m.Subframe? && m.w == w && m.h == h ==> Faithful(m))
       <==> w * h < 96_000
  {
    hide IsSound, Faithful;
    if w * h < 96_000 {
      forall m: Message | IsSound(m) && m.Subframe? && m.w == w && m.h == h
        ensures Faithful(m)
      {
        SmallIsFaithful(m);
      }
    } else {
      LargeFades(w, h);
    }
  }

  // ─── Encoding does not change the events ─────────────────────────────────

  /** `e` goes over the wire for `m`: as it is, if that is lossless, or uncompressed. */
  predicate Carries(e: Message, m: Message) {
    || e == WebSocket.AsRaw(m)
    || (e == m && (HasPixels(m) ==> m.compression != PixelPayload.LZ4_DELTA_Q2))
  }

  /** A reply to a command, or part of a greeting, written to the same stream: it draws nothing. */
  predicate IsReply(e: Message) {
    IsQuiet(e) && !e.TileData? && (e.TabCreated? ==> e.tabId + 1 < TWO_32)
  }

  /** `es` is what went over the wire for `ms`, with replies anywhere in between. */
  ghost predicate AllCarried(es: seq<Message>, ms: seq<Message>) {
    if es == [] then ms == []
    else
      var init, e := es[..|es| - 1], es[|es| - 1];
      || (ms != [] && Carries(e, ms[|ms| - 1]) && AllCarried(init, ms[..|ms| - 1]))
      || (IsReply(e) && AllCarried(init, ms))
  }

  lemma CarriedEvent(e: Message, m: Message)
    requires Carries(e, m)
    ensures FromProto(Received(e)) == FromProto(m)
  {
    hide FromProto, Received, WebSocket.AsRaw;
    if e == WebSocket.AsRaw(m) {
      WebSocket.WsEvent(m);
    } else {
      WebSocket.TcpEvent(m);
    }
  }

  lemma {:induction false} ReceivedEnd(es: seq<Message>, e: Message)
    ensures ReceivedAll(es + [e]) == ReceivedAll(es) + [Received(e)]
    decreases |es|
  {
    hide Received;
    if es == [] {
      assert [] + [e] == [e];
    } else {
      assert (es + [e])[1..] == es[1..] + [e];
      ReceivedEnd(es[1..], e);
    }
  }

  lemma CarriedEffect(e: Message, m: Message, x: nat, y: nat)
    requires Carries(e, m)
    ensures Effect(Received(e), x, y) == Effect(m, x, y)
  {
    hide Carries, Received, FromProto, Writes;
    CarriedEvent(e, m);
  }

  lemma ReplyEffect(e: Message, x: nat, y: nat)
    requires IsReply(e)
    ensures Effect(Received(e), x, y).None?
  {
  }

  /** Neither encoding nor interleaved replies change the picture. */
  lemma {:induction false} CarriedShows(es: seq<Message>, ms: seq<Message>, x: nat, y: nat)
    requires AllCarried(es, ms)
    ensures Shows(ReceivedAll(es), x, y) == Shows(ms, x, y)
    decreases |es|
  {
    hide Effect, Received, Carries, IsReply;
    if es != [] {
      var init, e := es[..|es| - 1], es[|es| - 1];
      assert es == init + [e];
      ReceivedEnd(init, e);
      assert ReceivedAll(es)[..|init|] == ReceivedAll(init);
      if ms != [] && Carries(e, ms[|ms| - 1]) && AllCarried(init, ms[..|ms| - 1]) {
        CarriedShows(init, ms[..|ms| - 1], x, y);
        CarriedEffect(e, ms[|ms| - 1], x, y);
      } else {
        CarriedShows(init, ms, x, y);
        ReplyEffect(e, x, y);
      }
    }
  }

  lemma SoundEvent(e: Message, m: Message)
    requires Carries(e, m) && IsSound(m) && FromProto(Received(e)).Some?
    ensures IsEvent(FromProto(Received(e)).value)
  {
    hide Carries, Received;
    CarriedEvent(e, m);
  }

  lemma ReplyEvent(e: Message)
    requires IsReply(e) && FromProto(Received(e)).Some?
    ensures IsEvent(FromProto(Received(e)).value)
  {
  }

  lemma {:induction false} CarriedAreEvents(es: seq<Message>, ms: seq<Message>)
    requires AllCarried(es, ms) && forall m :: m in ms ==> IsSound(m)
    ensures forall ev :: ev in Events(ReceivedAll(es)) ==> IsEvent(ev)
    decreases |es|
  {
    hide FromProto, Received, Carries, IsReply, IsSound, IsEvent;
    if es != [] {
      var init, e := es[..|es| - 1], es[|es| - 1];
      assert es == init + [e];
      ReceivedEnd(init, e);
      assert ReceivedAll(es)[..|init|] == ReceivedAll(init);
      if ms != [] && Carries(e, ms[|ms| - 1]) && AllCarried(init, ms[..|ms| - 1]) {
        CarriedAreEvents(init, ms[..|ms| - 1]);
        if FromProto(Received(e)).Some? {
          SoundEvent(e, ms[|ms| - 1]);
        }
      } else {
        CarriedAreEvents(init, ms);
        if FromProto(Received(e)).Some? {
          ReplyEvent(e);
        }
      }
    }
  }

  // ─── The whole way ───────────────────────────────────────────────────────

  /** After some run of the host and the writer that leaves the subscriber caught up, `chunks` is the byte stream it
      received, whatever the compressor and the transport chose and whatever replies were written in between. */
  ghost predicate Delivered(s: System, es: seq<Message>, chunks: seq<seq<byte>>) {
    && Reachable(s) && CaughtUp(s.sub)
    && AllCarried(es, Sent(s.sub)) && AreFrames(es, Flatten(chunks))
  }

  /** Every byte is decoded, whatever the chunks, to exactly the messages written. */
  lemma StreamArrives(s: System, es: seq<Message>, chunks: seq<seq<byte>>)
    requires Delivered(s, es, chunks)
    ensures Feed([], chunks) == (ReceivedAll(es), [])
  {
    hide Reachable, Decode, Feed, AllCarried, CaughtUp;
    StreamRoundTrip(es, Flatten(chunks));
    DecodeEmpty();
    assert [] + Flatten(chunks) == Flatten(chunks);
    ChunkingIrrelevant([], chunks);
  }

  /** A caught-up subscriber was sent acceptable messages, and they show the active tab's last frame if and only if no
      loss left a visible pixel stale. */
  lemma ReachableMirrors(s: System)
    requires Reachable(s) && CaughtUp(s.sub)
    ensures Mirrors(Sent(s.sub), s.host) <==> !Stale(s.sub.log, s.host)
    ensures forall m :: m in Sent(s.sub) ==> IsSound(m)
  {
    hide IsRun, Mirrors, Stale, IsSound;
    var run := RunTo(s);
    RunKeepsInvariant(run, |run| - 1);
    MirrorsExactly(run, |run| - 1);
  }

  /** The events write every visible pixel of `f`. */
  ghost predicate WritesFrame(evs: seq<RenderEvent>, f: FrameData) {
    forall x, y :: 0 <= x < f.width && 0 <= y < f.height ==>
      LastWrite(evs, x, y) == Some(PixelAt(f.pixels, f.stride, x, y))
  }

  /** Then, and only then, the events the client decodes write the host's last frame at every visible pixel. */
  lemma PictureArrives(s: System, es: seq<Message>, chunks: seq<seq<byte>>)
    requires Delivered(s, es, chunks) && s.host.active in s.host.last
    ensures WritesFrame(Events(Feed([], chunks).0), s.host.last[s.host.active]) <==> !Stale(s.sub.log, s.host)
  {
    hide Reachable, Feed, LastWrite, Shows, PixelAt, AreFrames, AllCarried, CaughtUp, Stale;
    ReachableMirrors(s);
    StreamArrives(s, es, chunks);
    forall x, y
      ensures LastWrite(Events(ReceivedAll(es)), x, y) == Shows(Sent(s.sub), x, y)
    {
      ShowsIsLastWrite(ReceivedAll(es), x, y);
      CarriedShows(es, Sent(s.sub), x, y);
    }
  }

  lemma {:induction false} InConcat(batches: seq<seq<RenderEvent>>, k: nat, ev: RenderEvent)
    requires k < |batches| && ev in batches[k]
    ensures ev in Concat(batches)
    decreases |batches|
  {
    var n := |batches| - 1;
    if k < n {
      InConcat(batches[..n], k, ev);
    }
  }

  lemma AreEvents(s: System, es: seq<Message>, chunks: seq<seq<byte>>, batches: seq<seq<RenderEvent>>)
    requires Delivered(s, es, chunks) && Concat(batches) == Events(Feed([], chunks).0)
    ensures forall k :: 0 <= k < |batches| ==> forall ev :: ev in batches[k] ==> IsEvent(ev)
  {
    hide Reachable, Feed, AreFrames, AllCarried, CaughtUp, Mirrors, IsEvent, IsSound, Concat, Stale;
    ReachableMirrors(s);
    StreamArrives(s, es, chunks);
    CarriedAreEvents(es, Sent(s.sub));
    forall k, ev | 0 <= k < |batches| && ev in batches[k]
      ensures IsEvent(ev)
    {
      InConcat(batches, k, ev);
    }
  }

  /** The cell holds the blue, green and red byte of the pixel of `f`; where a tab change came last, it may show padding
      instead. */
  predicate CellShows(cell: u32, f: FrameData, ops: seq<Op>, x: nat, y: nat) {
    || IsBgr(cell, f.pixels, y * f.stride + 4 * x)
    || (Blank in ops && Since(ops, x, y).None? && cell == 0x0F0F12)
  }

  /** So do all cells of a window's content area that lie within the visible part of `f`. */
  ghost predicate OnScreen(f: FrameData, ops: seq<Op>, buffer: array<u32>, bw: nat, bh: nat)
    reads buffer
  {
    forall x, y :: 0 <= x < bw && 96 <= y < bh && x < f.width && y - 96 < f.height ==>
      CellShows(Cell(buffer, bw, x, y), f, ops, x, y - 96)
  }

  lemma NothingWritten(x: nat, y: nat)
    ensures LastWrite([], x, y).None?
  {
  }

  lemma FrameBgr(f: HostFrame, x: nat, y: nat)
    requires x < f.width && y < f.height
    ensures IsBgr(Word(PixelAt(f.pixels, f.stride, x, y)), f.pixels, y * f.stride + 4 * x)
  {
    hide IsBgr, PixelAt, Word;
    PixelBgr(f.pixels, f.stride, f.width, f.height, x, y);
  }

  lemma PixelArrives(v: TabState, b: Backlog, batches: seq<seq<RenderEvent>>, f: HostFrame, x: nat, y: nat, was: u32)
    requires AllAccepted(b) && WritesFrame(Concat(batches), f) && x < f.width && y < f.height
    ensures CellShows(Mixed(ShownAfter(v, b, batches, x, y), was), f, OpsOf(v, Concat(batches)), x, y)
  {
    hide AllAccepted, OpsOf, LastWrite, Since, PixelAt, ShownAfter, IsBgr, Word;
    FrameBgr(f, x, y);
    WordOfPad();
    var evs := Concat(batches);
    var ops := OpsOf(v, evs);
    assert LastWrite(evs, x, y) == Some(PixelAt(f.pixels, f.stride, x, y));
    assert batches != [] by {
      NothingWritten(x, y);
    }
    LoopOutcome(v, b, batches, x, y);
    OpsWrite(v, evs, x, y);
    SinceIsLast(ops, x, y);
  }

  lemma QueueAccepted(core: BrowserCore)
    requires core.Valid()
    ensures AllAccepted(core.Pending())
  {
  }

  /** The client shows the host's frame. After any run of the host and the writer that leaves the subscriber caught
      up and not stale, for any encoding, any replies in between, any chunking and any batching of the decoded events,
      and from any client state: rendering leaves every visible pixel of the host's last frame in the client's
      framebuffer, except where the client's active tab changed after the last write, which may show padding. */
  method HostFrameOnScreen(ghost s: System, ghost es: seq<Message>, ghost chunks: seq<seq<byte>>, core: BrowserCore,
                           buffer: array<u32>, chromes: seq<seq<u32>>, batches: seq<seq<RenderEvent>>)
    requires Delivered(s, es, chunks) && Concat(batches) == Events(Feed([], chunks).0)
    requires !Stale(s.sub.log, s.host)
    requires core.Valid() && core.Fits(buffer) && |chromes| == |batches|
    requires forall k :: 0 <= k < |chromes| ==> |chromes[k]| == Min(CHROME_H, core.winH) * core.winW
    modifies core, buffer
    ensures core.Valid() && core.winW == old(core.winW) && core.winH == old(core.winH)
    ensures s.host.active in s.host.last ==>
              OnScreen(s.host.last[s.host.active], OpsOf(old(core.TabView()), Concat(batches)), buffer,
                       core.winW, core.winH)
  {
    hide Delivered, Cell, CellShows, WritesFrame, IsEvent, Feed, Events, Stale, Mixed, ShownAfter, OpsOf, Concat;
    hide AllAccepted;
    ghost var v, b := core.TabView(), core.Pending();
    AreEvents(s, es, chunks, batches);
    QueueAccepted(core);
    RunLoop(core, buffer, chromes, batches);
    if s.host.active in s.host.last {
      ghost var f := s.host.last[s.host.active];
      PictureArrives(s, es, chunks);
      forall x, y | 0 <= x < core.winW && 0 <= y < core.winH && y >= 96 && x < f.width && y - 96 < f.height
        ensures CellShows(Cell(buffer, core.winW, x, y), f, OpsOf(v, Concat(batches)), x, y - 96)
      {
        PixelArrives(v, b, batches, f, x, y - 96, old(Cell(buffer, core.winW, x, y)));
      }
    }
  }

  // ─── Sending uncompressed ────────────────────────────────────────────────

  /** Within the cap when sent uncompressed. */
  predicate Small(m: Message) {
    if HasPixels(m) then |m.pixels| + 25 <= MAX_MESSAGE_BYTES else |Payload(m, [])| <= MAX_MESSAGE_BYTES
  }

  /** The host's messages can always be sent uncompressed. */
  lemma RawFits(m: Message)
    requires IsSound(m) && Small(m)
    ensures Fits(WebSocket.AsRaw(m))
  {
    hide FromProto, Accepted, Regular, Payload;
    if HasPixels(m) {
      var r := WebSocket.AsRaw(m);
      WebSocket.RawPayloadSize(r);
    }
  }

  lemma SentFits(s: System)
    requires Reachable(s) && CaughtUp(s.sub) && forall m :: m in Sent(s.sub) ==> Small(m)
    ensures forall m :: m in Sent(s.sub) ==> Fits(WebSocket.AsRaw(m))
  {
    hide Reachable, CaughtUp, Small, Fits, IsSound, WebSocket.AsRaw;
    ReachableMirrors(s);
    forall m | m in Sent(s.sub)
      ensures Fits(WebSocket.AsRaw(m))
    {
      RawFits(m);
    }
  }

  lemma {:induction false} RawCarried(es: seq<Message>, ms: seq<Message>)
    requires |es| == |ms| && forall i :: 0 <= i < |ms| ==> es[i] == WebSocket.AsRaw(ms[i])
    ensures AllCarried(es, ms)
  {
    hide WebSocket.AsRaw, IsReply;
    if es != [] {
      RawCarried(es[..|es| - 1], ms[..|ms| - 1]);
    }
  }

  /** Sending a caught-up subscriber's messages uncompressed delivers them. */
  method DeliverRaw(ghost s: System, sent: seq<Message>) returns (es: seq<Message>, wire: seq<byte>)
    requires Reachable(s) && CaughtUp(s.sub) && sent == Sent(s.sub) && forall m :: m in sent ==> Small(m)
    ensures Delivered(s, es, [wire])
    ensures |es| == |sent| && forall i :: 0 <= i < |sent| ==> es[i] == WebSocket.AsRaw(sent[i])
  {
    hide Reachable, CaughtUp, Small, Fits, AreFrames, AllCarried;
    SentFits(s);
    es := seq(|sent|, i requires 0 <= i < |sent| => WebSocket.AsRaw(sent[i]));
    forall m | m in es
      ensures Fits(m)
    {
      var i :| 0 <= i < |es| && es[i] == m;
      assert sent[i] in sent;
    }
    RawCarried(es, sent);
    wire := EncodeAll(es);
    assert Flatten([wire]) == wire by {
      assert [wire][1..] == [] && wire + [] == wire;
    }
  }

  lemma {:induction false} RawEventsSame(es: seq<Message>, ms: seq<Message>)
    requires |es| == |ms| && forall i :: 0 <= i < |ms| ==> es[i] == WebSocket.AsRaw(ms[i])
    ensures Events(ReceivedAll(es)) == Events(ms)
  {
    hide FromProto, Received, WebSocket.AsRaw;
    if ms != [] {
      var n := |ms| - 1;
      RawEventsSame(es[..n], ms[..n]);
      WebSocket.WsEvent(ms[n]);
      ReceivedEnd(es[..n], es[n]);
      assert es == es[..n] + [es[n]];
      assert ReceivedAll(es)[..n] == ReceivedAll(es[..n]);
    }
  }

  lemma RawEvents(s: System, es: seq<Message>, wire: seq<byte>, sent: seq<Message>)
    requires Delivered(s, es, [wire])
    requires |es| == |sent| && forall i :: 0 <= i < |sent| ==> es[i] == WebSocket.AsRaw(sent[i])
    ensures Events(Feed([], [wire]).0) == Events(sent)
  {
    hide Delivered, Feed, Events, WebSocket.AsRaw;
    StreamArrives(s, es, [wire]);
    RawEventsSame(es, sent);
  }

  lemma OnePiece(wire: seq<byte>, events: seq<RenderEvent>)
    ensures Feed([], [wire]).0 == DecodeAll(wire).msgs
    ensures Concat([events]) == events
  {
    hide DecodeAll;
    assert [] + wire == wire && [wire][1..] == [];
    assert DecodeAll(wire).msgs + [] == DecodeAll(wire).msgs;
    assert [events][..0] == [] && [] + events == events;
  }

  /** From the messages to the screen: encoded, sent as one piece, drained by the network thread, queued, painted. */
  method SendAndShow(ghost s: System, sent: seq<Message>, core: BrowserCore, buffer: array<u32>, chrome: seq<u32>)
    requires Reachable(s) && CaughtUp(s.sub) && sent == Sent(s.sub) && forall m :: m in sent ==> Small(m)
    requires !Stale(s.sub.log, s.host)
    requires core.Valid() && core.Fits(buffer) && |chrome| == Min(CHROME_H, core.winH) * core.winW
    modifies core, buffer
    ensures s.host.active in s.host.last ==>
              OnScreen(s.host.last[s.host.active], OpsOf(old(core.TabView()), Events(sent)), buffer,
                       core.winW, core.winH)
  {
    hide Delivered, Reachable, CaughtUp, Small, Events, Stale, OnScreen, Sent, DecodeAll, OpsOf, AllCarried;
    var es, wire := DeliverRaw(s, sent);
    var msgs, left := NetPass(wire);
    var events := Events(msgs);
    OnePiece(wire, events);
    RawEvents(s, es, wire, sent);
    HostFrameOnScreen(s, es, [wire], core, buffer, [chrome], [events]);
  }
}
