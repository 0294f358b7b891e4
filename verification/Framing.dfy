/** Frames on a byte stream: `varint TAG | varint LEN | LEN bytes of payload`. */
module Framing {
  import opened Bytes
  import opened Varint
  import opened Wire
  import opened WireRoundTrip
  import PixelPayload

  function WireFrame(tag: u32, payload: seq<byte>): seq<byte> {
    Leb128(tag) + (Leb128(|payload| % TWO_32) + payload)
  }

  /** `f` is a frame that encoding `m` may produce. */
  ghost predicate IsFrame(m: Message, f: seq<byte>) {
    exists p :: IsPayload(m, p) && f == WireFrame(Tag(m), p)
  }

  /** The values on which encoding does not panic. */
  predicate Encodable(m: Message) {
    HasPixels(m) ==>
      m.compression <= 3 && (m.compression == PixelPayload.LZ4_DELTA_Q2 ==> |m.pixels| >= m.w * m.h * 4)
  }

  lemma PayloadTail(m: Message, px: seq<byte>)
    requires HasPixels(m)
    ensures Payload(m, px) == Payload(m, []) + px
  {
    hide Le16, Le32, Le64;
  }

  method EncodePayload(m: Message, out0: seq<byte>) returns (out: seq<byte>)
    requires Encodable(m)
    ensures |out0| <= |out| && out[..|out0|] == out0
    ensures IsPayload(m, out[|out0|..])
  {
    hide Payload, PixelPayload.WritesPixels;
    out := out0 + Payload(m, []);
    if HasPixels(m) {
      ghost var head := out;
      out := PixelPayload.WritePayloadGeom(out, m.compression, m.w, m.h, m.pixels);
      ghost var px := out[|head|..];
      PayloadTail(m, px);
      assert out[|out0|..] == Payload(m, px);
    }
  }

  /** `out.copy_within(src..src + len, dst)`: the ranges may overlap. */
  function CopyWithin(out: seq<byte>, src: nat, len: nat, dst: nat): (r: seq<byte>)
    requires src + len <= |out| && dst + len <= |out|
    ensures |r| == |out|
  {
    out[..dst] + out[src..src + len] + out[dst + len..]
  }

  /** The bytes of the length varint, in a five-byte buffer. */
  method LengthVarint(len: u32) returns (buf: seq<byte>, n: nat)
    ensures |buf| == 5 && n <= 5 && buf[..n] == Leb128(len)
  {
    Leb128Size(len);
    buf := [0, 0, 0, 0, 0];
    var v := len;
    n := 0;
    while true
      invariant 0 <= v < TWO_32 && |buf| == 5 && n + |Leb128(v)| <= 5
      invariant buf[..n] + Leb128(v) == Leb128(len)
      decreases v
    {
      var b := v % 0x80;
      v := v / 0x80;
      if v == 0 {
        buf := buf[n := b];
        n := n + 1;
        return;
      }
      assert buf[..n] + Leb128(v * 0x80 + b) == (buf[..n] + [b + 0x80]) + Leb128(v);
      buf := buf[n := b + 0x80];
      assert buf[..n + 1] == buf[..n] + [b + 0x80];
      n := n + 1;
    }
  }

  /** Growing the buffer and moving the payload over itself makes exactly the room the length needs. */
  lemma PatchedLength(head: seq<byte>, p: seq<byte>, len: seq<byte>, zeros: seq<byte>)
    requires |zeros| + 1 == |len|
    ensures var grown := head + [0] + p + zeros;
            var moved := CopyWithin(grown, |head| + 1, |p|, |head| + |len|);
            moved[..|head|] + len + moved[|head| + |len|..] == head + len + p
  {
    var grown := head + [0] + p + zeros;
    var moved := CopyWithin(grown, |head| + 1, |p|, |head| + |len|);
    assert grown[|head| + 1..|head| + 1 + |p|] == p;
    assert moved[|head| + |len|..] == p;
    assert moved[..|head|] == head;
  }

  method PatchLength(out0: seq<byte>, lenPos: nat, payloadLen: nat, ghost head: seq<byte>, ghost p: seq<byte>)
    returns (out: seq<byte>)
    requires out0 == head + [0] + p && lenPos == |head| && payloadLen == |p|
    ensures out == head + Leb128(payloadLen % TWO_32) + p
  {
    hide CopyWithin;
    var lenBuf, n := LengthVarint(payloadLen % TWO_32);
    var zeros := seq(n - 1, _ => 0);
    PatchedLength(head, p, lenBuf[..n], zeros);
    out := CopyWithin(out0 + zeros, lenPos + 1, payloadLen, lenPos + n);
    out := out[..lenPos] + lenBuf[..n] + out[lenPos + n..];
  }

  lemma Assoc(a: seq<byte>, b: seq<byte>, c: seq<byte>, d: seq<byte>)
    ensures a + b + c + d == a + (b + (c + d))
  {
    assert a + b + c + d == (a + b) + (c + d);
  }

  /** The length is written optimistically as one byte and, when it needs more, patched in after shifting the
      payload right over itself. Earlier bytes of `out` stay, and exactly one frame is appended. */
  method Encode(m: Message, out0: seq<byte>) returns (out: seq<byte>)
    requires Encodable(m)
    ensures |out0| < |out| && out[..|out0|] == out0
    ensures IsFrame(m, out[|out0|..])
  {
    hide IsPayload, Encodable, CopyWithin, Tag;
    out := WriteVarint(out0, Tag(m));
    ghost var head := out;
    var lenPos := |out|;
    out := out + [0];
    out := EncodePayload(m, out);
    var payloadLen := |out| - (lenPos + 1);
    ghost var p := out[lenPos + 1..];
    assert out == head + [0] + p;
    if payloadLen < 0x80 {
      out := out[lenPos := payloadLen];
      assert out == head + [payloadLen] + p;
    } else {
      out := PatchLength(out, lenPos, payloadLen, head, p);
    }
    Assoc(out0, Leb128(Tag(m)), Leb128(|p| % TWO_32), p);
    assert out[|out0|..] == WireFrame(Tag(m), p);
  }

  // ─── One frame off the front of a buffer ─────────────────────────────────

  function DecodeBody(tag: u32, len: u32, p: seq<byte>): (r: Result<Option<(Message, seq<byte>)>>)
    ensures r.Ok? && r.value.Some? ==> |r.value.value.1| <= |p|
  {
    if len > MAX_MESSAGE_BYTES then Err(MessageTooLarge)
    else if |p| < len then Ok(None)
    else
      var m :- DecodePayload(tag, p[..len]);
      Ok(Some((m, p[len..])))
  }

  /** `Ok(None)` asks for more input; otherwise the message and the bytes after its frame. */
  function Decode(buf: seq<byte>): (r: Result<Option<(Message, seq<byte>)>>)
    ensures r.Ok? && r.value.Some? ==> |r.value.value.1| < |buf|
  {
    var tag := ReadVarintSpec(buf);
    if tag.Err? then (if tag.error == UnexpectedEof then Ok(None) else Err(tag.error))
    else
      var len := ReadVarintSpec(tag.value.1);
      if len.Err? then (if len.error == UnexpectedEof then Ok(None) else Err(len.error))
      else DecodeBody(tag.value.0, len.value.0, len.value.1)
  }

  /** A tag, a length and as many bytes are one frame, and a longer length than 16 MiB is refused at once. */
  lemma FrameLayout(tag: u32, len: u32, p: seq<byte>)
    ensures Decode(Leb128(tag) + Leb128(len) + p)
         == if len > 0x100_0000 then Err(MessageTooLarge)
            else if |p| < len then Ok(None)
            else if DecodePayload(tag, p[..len]).Err? then Err(DecodePayload(tag, p[..len]).error)
            else Ok(Some((DecodePayload(tag, p[..len]).value, p[len..])))
  {
    hide DecodePayload, Leb128, ReadVarintSpec;
    assert Leb128(tag) + Leb128(len) + p == Leb128(tag) + (Leb128(len) + p);
    VarintRoundTrip(tag, Leb128(len) + p);
    VarintRoundTrip(len, p);
  }

  /** Message round trip on the wire, for every sendable message and whatever follows it: the frame is consumed
      exactly and gives the message back; beyond the cap it is refused. */
  lemma FrameRoundTrip(m: Message, p: seq<byte>, rest: seq<byte>)
    requires IsPayload(m, p) && Sendable(m) && |p| < TWO_32
    ensures Decode(WireFrame(Tag(m), p) + rest)
         == if |p| <= MAX_MESSAGE_BYTES then Ok(Some((Received(m), rest))) else Err(MessageTooLarge)
  {
    hide IsPayload, Sendable, Received, DecodePayload, Leb128, ReadVarintSpec;
    var q := Leb128(|p|) + (p + rest);
    assert WireFrame(Tag(m), p) + rest == Leb128(Tag(m)) + q;
    VarintRoundTrip(Tag(m), q);
    VarintRoundTrip(|p|, p + rest);
    assert (p + rest)[..|p|] == p && (p + rest)[|p|..] == rest;
    PayloadInverts(m, p);
  }

  /** More input never changes a verdict other than "need more". */
  lemma DecodeStable(buf: seq<byte>, more: seq<byte>)
    ensures var r := Decode(buf);
            if r.Err? then Decode(buf + more) == r
            else r.value.Some? ==> Decode(buf + more) == Ok(Some((r.value.value.0, r.value.value.1 + more)))
  {
    hide DecodePayload, ReadVarintSpec;
    var tag := ReadVarintSpec(buf);
    VarintStable(buf, more);
    if tag.Ok? {
      var len := ReadVarintSpec(tag.value.1);
      VarintStable(tag.value.1, more);
      if len.Ok? && |len.value.1| >= len.value.0 {
        assert (len.value.1 + more)[..len.value.0] == len.value.1[..len.value.0];
        assert (len.value.1 + more)[len.value.0..] == len.value.1[len.value.0..] + more;
      }
    }
  }

  /** Every strict prefix of a frame asks for more input: never an error, never a shorter message. */
  lemma DecodePrefix(buf: seq<byte>, cut: nat)
    requires Decode(buf).Ok? && Decode(buf).value.Some?
    requires cut < |buf| - |Decode(buf).value.value.1|
    ensures Decode(buf[..cut]) == Ok(None)
  {
    hide DecodePayload, ReadVarintSpec;
    var (tag, p1) := ReadVarintSpec(buf).value;
    VarintCut(buf, cut);
    if cut >= |buf| - |p1| {
      VarintCut(p1, cut - (|buf| - |p1|));
    }
  }

  // ─── Draining a buffer ───────────────────────────────────────────────────

  /** All complete frames at the front of a buffer, the undecoded rest, and the error that stopped decoding. */
  datatype Drained = Drained(msgs: seq<Message>, rest: seq<byte>, error: Option<Error>)

  function DecodeAll(buf: seq<byte>): Drained
    decreases |buf|
  {
    var r := Decode(buf);
    if r.Err? then Drained([], buf, Some(r.error))
    else if r.value.None? then Drained([], buf, None)
    else
      var d := DecodeAll(r.value.value.1);
      Drained([r.value.value.0] + d.msgs, d.rest, d.error)
  }

  function After(msgs: seq<Message>, d: Drained): Drained {
    Drained(msgs + d.msgs, d.rest, d.error)
  }

  /** Decoding can be interrupted anywhere: drain `a`, keep what is left, append `b`, go on. An error found in
      `a` is final. */
  lemma {:induction false} DecodeAllSplits(a: seq<byte>, b: seq<byte>)
    ensures var d := DecodeAll(a);
            DecodeAll(a + b) == if d.error.None? then After(d.msgs, DecodeAll(d.rest + b))
                                else Drained(d.msgs, d.rest + b, d.error)
    decreases |a|
  {
    hide Decode;
    var r := Decode(a);
    DecodeStable(a, b);
    if r.Ok? && r.value.Some? {
      var (m, rest) := r.value.value;
      DecodeAllSplits(rest, b);
      var d := DecodeAll(rest);
      if d.error.None? {
        assert [m] + (d.msgs + DecodeAll(d.rest + b).msgs) == ([m] + d.msgs) + DecodeAll(d.rest + b).msgs;
      }
    } else if r.Ok? {
      assert [] + DecodeAll(a + b).msgs == DecodeAll(a + b).msgs;
    }
  }

  /** A buffer of encoded messages drains to exactly those messages. */
  ghost predicate AreFrames(msgs: seq<Message>, wire: seq<byte>)
    decreases |msgs|
  {
    if msgs == [] then wire == []
    else exists p, tail ::
      && IsPayload(msgs[0], p) && |p| <= MAX_MESSAGE_BYTES && Sendable(msgs[0])
      && wire == WireFrame(Tag(msgs[0]), p) + tail
      && AreFrames(msgs[1..], tail)
  }

  function ReceivedAll(msgs: seq<Message>): (r: seq<Message>)
    ensures |r| == |msgs|
  {
    if msgs == [] then [] else [Received(msgs[0])] + ReceivedAll(msgs[1..])
  }

  lemma DecodeEmpty()
    ensures Decode([]) == Ok(None)
  {
  }

  lemma {:induction false} StreamRoundTrip(msgs: seq<Message>, wire: seq<byte>)
    requires AreFrames(msgs, wire)
    ensures DecodeAll(wire) == Drained(ReceivedAll(msgs), [], None)
    decreases |msgs|
  {
    hide Decode, IsPayload, Sendable, Received, WireFrame;
    if msgs == [] {
      DecodeEmpty();
    } else {
      var p, tail :|
        && IsPayload(msgs[0], p) && |p| <= MAX_MESSAGE_BYTES && Sendable(msgs[0])
        && wire == WireFrame(Tag(msgs[0]), p) + tail
        && AreFrames(msgs[1..], tail);
      FrameRoundTrip(msgs[0], p, tail);
      StreamRoundTrip(msgs[1..], tail);
    }
  }

  /** Encoding `m` succeeds, loses nothing the receiver needs, and stays within the cap. */
  ghost predicate Fits(m: Message) {
    Encodable(m) && Sendable(m) && forall p :: IsPayload(m, p) ==> |p| <= MAX_MESSAGE_BYTES
  }

  lemma FrameFirst(m: Message, p: seq<byte>, msgs: seq<Message>, tail: seq<byte>)
    requires IsPayload(m, p) && |p| <= MAX_MESSAGE_BYTES && Sendable(m) && AreFrames(msgs, tail)
    ensures AreFrames([m] + msgs, WireFrame(Tag(m), p) + tail)
  {
    hide IsPayload, Sendable, WireFrame;
    assert ([m] + msgs)[1..] == msgs;
  }

  lemma {:induction false} FrameAtEnd(msgs: seq<Message>, wire: seq<byte>, m: Message, f: seq<byte>)
    requires AreFrames(msgs, wire) && Fits(m) && IsFrame(m, f)
    ensures AreFrames(msgs + [m], wire + f)
    decreases |msgs|
  {
    hide IsPayload, Sendable, WireFrame, Encodable, Tag;
    if msgs == [] {
      var p :| IsPayload(m, p) && f == WireFrame(Tag(m), p);
      FrameFirst(m, p, [], []);
      assert f + [] == f == [] + f && [m] + [] == [m] == [] + [m];
    } else {
      var p, tail :|
        && IsPayload(msgs[0], p) && |p| <= MAX_MESSAGE_BYTES && Sendable(msgs[0])
        && wire == WireFrame(Tag(msgs[0]), p) + tail
        && AreFrames(msgs[1..], tail);
      FrameAtEnd(msgs[1..], tail, m, f);
      FrameFirst(msgs[0], p, msgs[1..] + [m], tail + f);
      assert [msgs[0]] + (msgs[1..] + [m]) == msgs + [m];
      assert wire + f == WireFrame(Tag(msgs[0]), p) + (tail + f);
    }
  }

  lemma NoFrames()
    ensures AreFrames([], [])
  {
  }

  lemma FitsEncodable(m: Message)
    requires Fits(m)
    ensures Encodable(m)
  {
  }

  /** Messages written one after another form a stream of their frames. */
  method EncodeAll(msgs: seq<Message>) returns (wire: seq<byte>)
    requires forall m :: m in msgs ==> Fits(m)
    ensures AreFrames(msgs, wire)
  {
    hide Fits, IsFrame, Encodable, AreFrames;
    NoFrames();
    wire := [];
    for i := 0 to |msgs|
      invariant AreFrames(msgs[..i], wire)
    {
      FitsEncodable(msgs[i]);
      ghost var before := wire;
      wire := Encode(msgs[i], wire);
      FrameAtEnd(msgs[..i], before, msgs[i], wire[|before|..]);
      assert wire == before + wire[|before|..];
      assert msgs[..i + 1] == msgs[..i] + [msgs[i]];
    }
    assert msgs[..|msgs|] == msgs;
  }
}
