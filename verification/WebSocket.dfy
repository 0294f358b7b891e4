/** The browser client's feed: frames re-encoded without compression, straight from the published message. */
module WebSocket {
  import opened Bytes
  import opened Varint
  import opened Wire
  import opened Framing
  import opened Screen
  import opened Host
  import opened Mirror
  import opened Fanout
  import Lag
  import PixelPayload

  /** The same message with its pixels uncompressed. */
  function AsRaw(m: Message): Message {
    match m
    case RawFrame(ts, w, h, stride, format, _, pixels) => RawFrame(ts, w, h, stride, format, PixelPayload.RAW, pixels)
    case Subframe(ts, x, y, w, h, stride, format, _, pixels) =>
      Message.Subframe(ts, x, y, w, h, stride, format, PixelPayload.RAW, pixels)
    case _ => m
  }

  lemma RawPayloadSize(m: Message)
    requires m.RawFrame? || m.Subframe?
    ensures |Payload(m, m.pixels)| == (if m.RawFrame? then 21 else 25) + |m.pixels|
  {
  }

  /** Without compression there is only one way to encode a frame. */
  lemma RawFrameUnique(m: Message, f: seq<byte>)
    requires (m.RawFrame? || m.Subframe?) && m.compression == PixelPayload.RAW
    ensures IsFrame(m, f) <==> f == WireFrame(Tag(m), Payload(m, m.pixels))
  {
    hide Payload, WireFrame;
    assert PixelPayload.WritesPixels(m.compression, m.w, m.h, m.pixels, m.pixels);
    assert IsPayload(m, Payload(m, m.pixels));
  }

  /** `out` grows field by field to the right; the payload is built from the left. */
  lemma Fields(h: seq<byte>, a: seq<byte>, b: seq<byte>, c: seq<byte>, d: seq<byte>, e: seq<byte>)
    ensures h + a + b + c + d + e == h + (a + (b + (c + (d + e))))
  {
    assert h + a + b + c + d + e == h + a + b + c + (d + e);
    assert h + a + b + c + (d + e) == h + a + b + (c + (d + e));
  }

  lemma WsFrame(m: Message, head: seq<byte>, out: seq<byte>)
    requires (m.RawFrame? || m.Subframe?) && m.compression == PixelPayload.RAW
    requires head == [] + Leb128(Tag(m)) + Leb128(((if m.RawFrame? then 21 else 25) + |m.pixels|) % TWO_32)
    requires out == head + Payload(m, m.pixels)
    ensures IsFrame(m, out)
  {
    hide Payload, Leb128, IsFrame;
    RawPayloadSize(m);
    var p := Payload(m, m.pixels);
    assert out == WireFrame(Tag(m), p);
    RawFrameUnique(m, out);
  }

  method EncodeRawFrame(m: Message) returns (out: seq<byte>)
    requires m.RawFrame?
    ensures IsFrame(AsRaw(m), out)
  {
    hide IsFrame, Le16, Le32, Le64, Leb128;
    var payloadLen := 21 + |m.pixels|;
    out := WriteVarint([], 0x40);
    out := WriteVarint(out, payloadLen % TWO_32);
    ghost var head := out;
    out := out + Le64(m.tsUs);
    out := out + Le16(m.w);
    out := out + Le16(m.h);
    ghost var half := out;
    out := out + Le32(m.stride);
    out := out + Le32(m.format);
    out := out + [PixelPayload.RAW];
    out := out + m.pixels;
    ghost var tail := Le32(m.stride) + (Le32(m.format) + ([PixelPayload.RAW] + m.pixels));
    Fields(half, Le32(m.stride), Le32(m.format), [PixelPayload.RAW], m.pixels, []);
    Fields(head, Le64(m.tsUs), Le16(m.w), Le16(m.h), tail, []);
    WsFrame(AsRaw(m), head, out);
  }

  method EncodeSubframe(m: Message) returns (out: seq<byte>)
    requires m.Subframe?
    ensures IsFrame(AsRaw(m), out)
  {
    hide IsFrame, Le16, Le32, Le64, Leb128;
    var payloadLen := 25 + |m.pixels|;
    out := WriteVarint([], 0x41);
    out := WriteVarint(out, payloadLen % TWO_32);
    ghost var head := out;
    out := out + Le64(m.tsUs);
    out := out + Le16(m.x);
    out := out + Le16(m.y);
    out := out + Le16(m.w);
    out := out + Le16(m.h);
    ghost var half := out;
    out := out + Le32(m.stride);
    out := out + Le32(m.format);
    out := out + [PixelPayload.RAW];
    out := out + m.pixels;
    ghost var tail := Le32(m.stride) + (Le32(m.format) + ([PixelPayload.RAW] + m.pixels));
    Fields(half, Le32(m.stride), Le32(m.format), [PixelPayload.RAW], m.pixels, []);
    Fields(head + Le64(m.tsUs), Le16(m.x), Le16(m.y), Le16(m.w), Le16(m.h), tail);
    WsFrame(AsRaw(m), head, out);
  }

  /** The hand-inlined encoder for frames writes what the general one would for the uncompressed message; other
      messages are the bytes encoded once for everybody. */
  method EncodeWsItem(m: Message, wireQuic: seq<byte>) returns (out: seq<byte>)
    ensures m.RawFrame? || m.Subframe? ==> IsFrame(AsRaw(m), out)
    ensures !m.RawFrame? && !m.Subframe? ==> out == wireQuic
  {
    hide IsFrame;
    if m.RawFrame? {
      out := EncodeRawFrame(m);
    } else if m.Subframe? {
      out := EncodeSubframe(m);
    } else {
      out := wireQuic;
    }
  }

  // ─── What each kind of subscriber sees ───────────────────────────────────

  /** Frames sent raw arrive as the events they were published for. */
  lemma WsEvent(m: Message)
    ensures FromProto(Received(AsRaw(m))) == FromProto(m)
  {
  }

  /** So do compressed ones, except for half-resolution regions. */
  lemma TcpEvent(m: Message)
    requires HasPixels(m) ==> m.compression != PixelPayload.LZ4_DELTA_Q2
    ensures FromProto(Received(m)) == FromProto(m)
  {
  }

  lemma SnapshotCovers(h: Host, ts: u64, a: seq<Message>, b: seq<Message>, x: nat, y: nat)
    requires h.active in h.last
    ensures Shows(a + SnapshotSeq(h, ts) + b, x, y) == Shows(SnapshotSeq(h, ts) + b, x, y)
  {
    hide Shows, FullFrame;
    var full := FullFrame(ts, h.last[h.active]);
    ShowsConcat(a + [full], b, x, y);
    ShowsConcat(a, [full], x, y);
    ShowsConcat([full], b, x, y);
    ShowsOne(full, x, y);
    FullEffect(ts, h.last[h.active], x, y);
  }

  /** The snapshot of a joining browser and the published messages travel through two channels that are polled
      in no fixed order. Written first, the snapshot is harmless. Written after the updates `a`, before the updates
      `b`, it is so if and only if at every visible pixel `b` repaints it, `a` does not touch it, or `a` leaves there
      what the snapshot shows. */
  lemma SnapshotOrder(h: Host, ts: u64, h': Host, a: seq<Message>, b: seq<Message>)
    requires h.active in h.last && h'.active in h'.last
    requires Mirrors(SnapshotSeq(h, ts) + a + b, h')
    ensures Mirrors(a + SnapshotSeq(h, ts) + b, h') <==> HarmlessOn(h'.last[h'.active], SnapshotSeq(h, ts), a, b)
  {
    hide Shows, PixelAt, Harmless, SnapshotSeq;
    var snapshot, f := SnapshotSeq(h, ts), h'.last[h'.active];
    if Mirrors(a + snapshot + b, h') {
      forall x: nat, y: nat | x < f.width && y < f.height
        ensures Harmless(snapshot, a, b, x, y)
      {
        HarmlessIff(snapshot, a, b, x, y);
        SnapshotCovers(h, ts, a, b, x, y);
        assert Shows(snapshot + a + b, x, y) == Shows(a + snapshot + b, x, y);
      }
    }
    if HarmlessOn(f, snapshot, a, b) {
      forall x, y | 0 <= x < f.width && 0 <= y < f.height
        ensures Shows(a + snapshot + b, x, y) == Some(PixelAt(f.pixels, f.stride, x, y))
      {
        HarmlessIff(snapshot, a, b, x, y);
        SnapshotCovers(h, ts, a, b, x, y);
        assert Harmless(snapshot, a, b, x, y);
      }
    }
  }

  lemma OldFrameHarms(ts: u64)
    ensures !HarmlessOn(Lag.NEW_FRAME, [FullFrame(ts, Lag.OLD_FRAME)], [FullFrame(ts, Lag.NEW_FRAME)], [])
  {
    hide FullFrame;
    ShowsOne(FullFrame(ts, Lag.OLD_FRAME), 0, 0);
    ShowsOne(FullFrame(ts, Lag.NEW_FRAME), 0, 0);
    FullEffect(ts, Lag.OLD_FRAME, 0, 0);
    FullEffect(ts, Lag.NEW_FRAME, 0, 0);
    assert PixelAt(Lag.OLD_FRAME.pixels, 4, 0, 0) != PixelAt(Lag.NEW_FRAME.pixels, 4, 0, 0);
    assert !Harmless([FullFrame(ts, Lag.OLD_FRAME)], [FullFrame(ts, Lag.NEW_FRAME)], [], 0, 0);
  }

  /** It happens: from a state a new host gets into, one step and the late snapshot take the picture back. */
  lemma SnapshotMustGoFirst()
    ensures exists h: Host, a: Action, h': Host, msgs: seq<Message> ::
              && Arises(h) && Step(h, a, 0, h', msgs)
              && Mirrors(SnapshotSeq(h, 0) + msgs, h')
              && !Mirrors(msgs + SnapshotSeq(h, 0), h')
  {
    hide IsUpdate, ShowsFrame, Arises, HarmlessOn, FullFrame;
    var h, h' := Lag.BEFORE, Lag.AFTER;
    var update, snapshot := FullFrame(0, Lag.NEW_FRAME), FullFrame(0, Lag.OLD_FRAME);
    Lag.BeforeArises();
    assert Step(h, NewFrame(Lag.NEW_FRAME), 0, h', [update]);
    assert SnapshotSeq(h, 0) == [snapshot];
    FullShows([snapshot], 0, Lag.NEW_FRAME);
    assert [snapshot] + [update] + [] == [snapshot] + [update] && [update] + [snapshot] + [] == [update] + [snapshot];
    SnapshotOrder(h, 0, h', [update], []);
    OldFrameHarms(0);
  }
}
