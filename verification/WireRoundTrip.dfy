/** Decoding undoes encoding, message by message. */
module WireRoundTrip {
  import opened Bytes
  import opened Varint
  import opened Wire
  import PixelPayload

  lemma VecInverts(s: seq<byte>, rest: seq<byte>)
    requires |s| < TWO_32
    ensures ReadVec(WriteVec(s) + rest) == Ok((s, rest))
  {
    hide Leb128, ReadVarintSpec, ReadBytes;
    assert WriteVec(s) + rest == Leb128(|s|) + (s + rest);
    VarintRoundTrip(|s|, s + rest);
    FixedReadersInvert();
  }

  lemma {:induction false} I32sInvert(t: seq<i32>, rest: seq<byte>)
    ensures ReadI32s(WriteI32s(t) + rest, |t|) == Ok((t, rest))
  {
    hide ReadI32, LeI32;
    if t == [] {
      assert [] + rest == rest;
    } else {
      I32Inverts(t[0], WriteI32s(t[1..]) + rest);
      I32sInvert(t[1..], rest);
      assert WriteI32s(t) + rest == LeI32(t[0]) + (WriteI32s(t[1..]) + rest);
      assert [t[0]] + t[1..] == t;
    }
  }

  lemma ContentInverts(c: ContentRef, rest: seq<byte>)
    ensures ReadContentRef(WriteContentRef(c) + rest) == Ok((c, rest))
  {
    hide ReadU32, ReadU64, Le32, Le64;
    match c {
      case NoContent =>
      case SolidColor(rgba) =>
        assert (WriteContentRef(c) + rest)[1..] == Le32(rgba) + rest;
        U32Inverts(rgba, rest);
      case TrackId(t) =>
        assert (WriteContentRef(c) + rest)[1..] == Le64(t) + rest;
        U64Inverts(t, rest);
      case AssetHash(h) =>
        assert (WriteContentRef(c) + rest)[1..] == h + rest;
    }
  }

  /** Every variable-size reader undoes its writer. */
  lemma FieldReadersInvert()
    ensures forall s: seq<byte> :: |s| <= |WriteVec(s)|
    ensures forall s: seq<byte>, rest: seq<byte> {:trigger ReadVec(WriteVec(s) + rest)} ::
              |s| < TWO_32 ==> ReadVec(WriteVec(s) + rest) == Ok((s, rest))
    ensures forall s: Str, rest: seq<byte> {:trigger ReadStr(WriteVec(s) + rest)} ::
              |s| < TWO_32 ==> ReadStr(WriteVec(s) + rest) == Ok((s, rest))
    ensures forall h: Hash32, rest: seq<byte> {:trigger ReadHash(h + rest)} ::
              ReadHash(h + rest) == Ok((h, rest))
    ensures forall b: bool, rest: seq<byte> {:trigger ReadBool(WriteBool(b) + rest)} ::
              ReadBool(WriteBool(b) + rest) == Ok((b, rest))
    ensures forall t: Transform, rest: seq<byte> {:trigger ReadTransform(WriteI32s(t) + rest)} ::
              ReadTransform(WriteI32s(t) + rest) == Ok((t, rest))
    ensures forall c: ContentRef, rest: seq<byte> {:trigger ReadContentRef(WriteContentRef(c) + rest)} ::
              ReadContentRef(WriteContentRef(c) + rest) == Ok((c, rest))
  {
    hide ReadVec, ReadI32s, WriteI32s, ReadContentRef, WriteContentRef, ValidUtf8;
    forall s: seq<byte>, rest: seq<byte> | |s| < TWO_32
      ensures ReadVec(WriteVec(s) + rest) == Ok((s, rest))
    {
      VecInverts(s, rest);
    }
    forall t: Transform, rest: seq<byte>
      ensures ReadTransform(WriteI32s(t) + rest) == Ok((t, rest))
    {
      I32sInvert(t, rest);
    }
    forall c: ContentRef, rest: seq<byte>
      ensures ReadContentRef(WriteContentRef(c) + rest) == Ok((c, rest))
    {
      ContentInverts(c, rest);
    }
  }

  lemma SessionInverts(m: Message)
    requires Tag(m) < 0x10 || Tag(m) >= 0x80
    requires |Payload(m, [])| < TWO_32
    ensures ReadSession(Tag(m), Payload(m, [])) == Ok((m, []))
  {
    hide ReadVec, ReadStr, ReadHash, ReadBool, WriteVec, WriteBool;
    hide ReadU8, ReadU16, ReadU32, ReadU64, ReadI32, Le16, Le32, Le64, LeI32;
    FixedReadersInvert();
    FieldReadersInvert();
  }

  lemma PointerInverts(m: Message)
    requires 0x10 <= Tag(m) < 0x14
    ensures ReadInput(Tag(m), Payload(m, [])) == Ok((m, []))
  {
    hide ReadBool, WriteBool, ReadU8, ReadU32, ReadU64, ReadI32, Le32, Le64, LeI32;
    FixedReadersInvert();
    assert forall b: bool, rest: seq<byte> :: ReadBool(WriteBool(b) + rest) == Ok((b, rest)) by {
      FieldReadersInvert();
    }
  }

  lemma PageInverts(m: Message)
    requires 0x14 <= Tag(m) < 0x40
    requires |Payload(m, [])| < TWO_32
    ensures ReadInput(Tag(m), Payload(m, [])) == Ok((m, []))
  {
    hide ReadVec, ReadStr, WriteVec, ReadU8, ReadU16, ReadU32, ReadU64, Le16, Le32, Le64;
    FixedReadersInvert();
    FieldReadersInvert();
  }

  lemma TabInverts(m: Message)
    requires 0x70 <= Tag(m) < 0x80
    requires |Payload(m, [])| < TWO_32
    ensures ReadTab(Tag(m), Payload(m, [])) == Ok((m, []))
  {
    hide ReadVec, ReadStr, WriteVec, ReadU32, Le32;
    FixedReadersInvert();
    FieldReadersInvert();
  }

  // ─── Scene ───────────────────────────────────────────────────────────────

  /** A field that may be absent, read with the same condition. */
  lemma WhenInverts(present: bool, field: seq<byte>, rest: seq<byte>)
    ensures When(present, field) + rest == if present then field + rest else rest
  {
  }

  lemma PairInverts(a: u16, b: u16, rest: seq<byte>)
    ensures ReadPair((Le16(a) + Le16(b)) + rest) == Ok(((a, b), rest))
  {
    hide ReadU16, Le16;
    FixedReadersInvert();
    assert (Le16(a) + Le16(b)) + rest == Le16(a) + (Le16(b) + rest);
  }

  lemma QuadInverts(d: (u16, u16, u16, u16), rest: seq<byte>)
    ensures ReadQuad((Le16(d.0) + (Le16(d.1) + (Le16(d.2) + Le16(d.3)))) + rest) == Ok((d, rest))
  {
    hide Le16, ReadPair;
    var tail := (Le16(d.2) + Le16(d.3)) + rest;
    assert (Le16(d.0) + (Le16(d.1) + (Le16(d.2) + Le16(d.3)))) + rest == (Le16(d.0) + Le16(d.1)) + tail;
    PairInverts(d.0, d.1, tail);
    PairInverts(d.2, d.3, rest);
  }

  lemma LayerInverts(m: Message)
    requires m.LayerAdd? || m.LayerRemove? || m.SceneCommit?
    ensures ReadScene(Tag(m), Payload(m, [])) == Ok((m, []))
  {
    hide ReadTransform, ReadContentRef, WriteI32s, WriteContentRef;
    hide ReadU8, ReadU16, ReadU32, ReadU64, Le16, Le32, Le64;
    FixedReadersInvert();
    FieldReadersInvert();
  }

  /** An optional field read with its default yields the field or the default. */
  lemma WhenReads<T>(present: bool, field: seq<byte>, v: T, default: T, read: Read<T>, rest: seq<byte>)
    requires present ==> read == Ok((v, rest))
    ensures Unless(!present, default, read, When(present, field) + rest)
         == Ok((if present then v else default, rest))
  {
    WhenInverts(present, field, rest);
  }

  lemma TransformReads(mask: u32, t: Transform, rest: seq<byte>)
    ensures var p := When(Has(mask, TRANSFORM), WriteI32s(t)) + rest;
            Unless(!Has(mask, TRANSFORM), TRANSFORM_IDENTITY, ReadTransform(p), p)
            == Ok((if Has(mask, TRANSFORM) then t else TRANSFORM_IDENTITY, rest))
  {
    hide Has, Unless, ReadI32s, WriteI32s;
    var p := When(Has(mask, TRANSFORM), WriteI32s(t)) + rest;
    WhenInverts(Has(mask, TRANSFORM), WriteI32s(t), rest);
    I32sInvert(t, rest);
    WhenReads(Has(mask, TRANSFORM), WriteI32s(t), t, TRANSFORM_IDENTITY, ReadTransform(p), rest);
  }

  lemma OpacityReads(mask: u32, opacity: byte, rest: seq<byte>)
    ensures var p := When(Has(mask, OPACITY), [opacity]) + rest;
            Unless(!Has(mask, OPACITY), 255, ReadU8(p), p) == Ok((if Has(mask, OPACITY) then opacity else 255, rest))
  {
    hide Has, Unless, ReadU8;
    FixedReadersInvert();
    WhenInverts(Has(mask, OPACITY), [opacity], rest);
    var p := When(Has(mask, OPACITY), [opacity]) + rest;
    WhenReads(Has(mask, OPACITY), [opacity], opacity, 255, ReadU8(p), rest);
  }

  lemma SizeReads(mask: u32, w: u16, h: u16, rest: seq<byte>)
    ensures var p := When(Has(mask, SIZE), Le16(w) + Le16(h)) + rest;
            Unless(!Has(mask, SIZE), (0, 0), ReadPair(p), p) == Ok((if Has(mask, SIZE) then (w, h) else (0, 0), rest))
  {
    hide Has, Unless, ReadPair, Le16;
    PairInverts(w, h, rest);
    WhenInverts(Has(mask, SIZE), Le16(w) + Le16(h), rest);
    var p := When(Has(mask, SIZE), Le16(w) + Le16(h)) + rest;
    WhenReads(Has(mask, SIZE), Le16(w) + Le16(h), (w, h), (0, 0), ReadPair(p), rest);
  }

  lemma ContentReads(mask: u32, c: ContentRef, rest: seq<byte>)
    ensures var p := When(Has(mask, CONTENT_REF), WriteContentRef(c)) + rest;
            Unless(!Has(mask, CONTENT_REF), NoContent, ReadContentRef(p), p)
            == Ok((if Has(mask, CONTENT_REF) then c else NoContent, rest))
  {
    hide Has, Unless, ReadContentRef, WriteContentRef;
    ContentInverts(c, rest);
    WhenInverts(Has(mask, CONTENT_REF), WriteContentRef(c), rest);
    var p := When(Has(mask, CONTENT_REF), WriteContentRef(c)) + rest;
    WhenReads(Has(mask, CONTENT_REF), WriteContentRef(c), c, NoContent, ReadContentRef(p), rest);
  }

  lemma DamageReads(mask: u32, d: (u16, u16, u16, u16), rest: seq<byte>)
    ensures var field := Le16(d.0) + (Le16(d.1) + (Le16(d.2) + Le16(d.3)));
            var p := When(Has(mask, DAMAGE), field) + rest;
            Unless(!Has(mask, DAMAGE), (0, 0, 0, 0), ReadQuad(p), p)
            == Ok((if Has(mask, DAMAGE) then d else (0, 0, 0, 0), rest))
  {
    hide Has, Unless, ReadQuad, Le16;
    var field := Le16(d.0) + (Le16(d.1) + (Le16(d.2) + Le16(d.3)));
    QuadInverts(d, rest);
    WhenInverts(Has(mask, DAMAGE), field, rest);
    var p := When(Has(mask, DAMAGE), field) + rest;
    WhenReads(Has(mask, DAMAGE), field, d, (0, 0, 0, 0), ReadQuad(p), rest);
  }

  /** Masked-out fields take their defaults. */
  lemma UpdateInverts(m: Message)
    requires m.LayerUpdate?
    ensures ReadScene(Tag(m), Payload(m, [])) == Ok((Received(m), []))
  {
    hide ReadTransform, ReadContentRef, WriteI32s, WriteContentRef, ReadPair, ReadQuad, When, Has, Unless;
    hide ReadU8, ReadU16, ReadU32, Le16, Le32;
    var LayerUpdate(id, mask, transform, opacity, w, h, content, d) := m;
    var p5 := When(Has(mask, DAMAGE), Le16(d.0) + (Le16(d.1) + (Le16(d.2) + Le16(d.3)))) + [];
    var p4 := When(Has(mask, CONTENT_REF), WriteContentRef(content)) + p5;
    var p3 := When(Has(mask, SIZE), Le16(w) + Le16(h)) + p4;
    var p2 := When(Has(mask, OPACITY), [opacity]) + p3;
    U32Inverts(id, Le32(mask) + (When(Has(mask, TRANSFORM), WriteI32s(transform)) + p2));
    U32Inverts(mask, When(Has(mask, TRANSFORM), WriteI32s(transform)) + p2);
    TransformReads(mask, transform, p2);
    OpacityReads(mask, opacity, p3);
    SizeReads(mask, w, h, p4);
    ContentReads(mask, content, p5);
    DamageReads(mask, d, []);
  }

  // ─── Media ───────────────────────────────────────────────────────────────

  lemma DrawCmdInverts(c: DrawCommand, tail: seq<byte>)
    requires |WriteDrawCmd(c, tail)| < TWO_32
    ensures ReadDrawCmd(WriteDrawCmd(c, tail)) == Ok((c, tail))
    ensures |tail| < |WriteDrawCmd(c, tail)|
  {
    hide ReadVec, ReadStr, WriteVec, ReadHash, ReadBool, WriteBool;
    hide ReadU8, ReadU16, ReadU32, ReadI32, Le16, Le32, LeI32;
    FixedReadersInvert();
    FieldReadersInvert();
  }

  lemma {:induction false} DrawCmdsSize(cs: seq<DrawCommand>, tail: seq<byte>)
    ensures |cs| + |tail| <= |WriteDrawCmds(cs, tail)|
  {
    if cs != [] {
      DrawCmdsSize(cs[1..], tail);
    }
  }

  lemma {:induction false} DrawCmdsInvert(cs: seq<DrawCommand>, tail: seq<byte>)
    requires |WriteDrawCmds(cs, tail)| < TWO_32
    ensures ReadDrawCmds(WriteDrawCmds(cs, tail), |cs|) == Ok((cs, tail))
  {
    hide WriteDrawCmd, ReadDrawCmd;
    if cs != [] {
      DrawCmdInverts(cs[0], WriteDrawCmds(cs[1..], tail));
      DrawCmdsInvert(cs[1..], tail);
      assert [cs[0]] + cs[1..] == cs;
    }
  }

  lemma DrawingInverts(m: Message)
    requires m.DrawCommands? && |Payload(m, [])| < TWO_32
    ensures ReadMedia(Tag(m), Payload(m, [])) == Ok((m, []))
  {
    hide ReadU32, ReadU64, Le32, Le64, WriteDrawCmds, ReadDrawCmds, Leb128, ReadVarintSpec;
    FixedReadersInvert();
    DrawCmdsSize(m.commands, []);
    DrawCmdsInvert(m.commands, []);
    VarintRoundTrip(|m.commands|, WriteDrawCmds(m.commands, []));
  }

  lemma MediaInverts(m: Message)
    requires m.TileRef? || m.AudioFrame? || m.VideoChunk? || m.AssetRegister?
    requires |Payload(m, [])| < TWO_32
    ensures ReadMedia(Tag(m), Payload(m, [])) == Ok((m, []))
  {
    hide ReadVec, WriteVec, ReadHash, ReadBool, WriteBool;
    hide ReadU8, ReadU16, ReadU32, ReadU64, Le16, Le32, Le64;
    FixedReadersInvert();
    FieldReadersInvert();
  }

  lemma FrameInverts(m: Message, px: seq<byte>)
    requires HasPixels(m) && Sendable(m)
    requires PixelPayload.WritesPixels(m.compression, m.w, m.h, m.pixels, px)
    ensures ReadFrame(Tag(m), Payload(m, px)) == Ok((Received(m), []))
  {
    hide PixelPayload.ReadPixels, PixelPayload.Sendable, PixelPayload.WritesPixels, PixelPayload.Shown, PixelBytes;
    hide ReadU8, ReadU16, ReadU32, ReadU64, Le16, Le32, Le64;
    FixedReadersInvert();
    PixelPayload.PayloadRoundTrip(m.compression, m.w, m.h, m.pixels, px, PixelBytes(m.stride, m.h));
  }

  /** Message round trip, for every message whose pixels (if any) have the announced length: whichever bytes
      the encoder produced, decoding the payload gives the message back, up to `Received`. */
  lemma PayloadInverts(m: Message, p: seq<byte>)
    requires IsPayload(m, p) && Sendable(m) && |p| < TWO_32
    ensures DecodePayload(Tag(m), p) == Ok(Received(m))
  {
    hide Payload, ReadSession, ReadInput, ReadFrame, ReadMedia, ReadScene, ReadTab, PixelPayload.WritesPixels;
    if HasPixels(m) {
      var px :| PixelPayload.WritesPixels(m.compression, m.w, m.h, m.pixels, px) && p == Payload(m, px);
      FrameInverts(m, px);
    } else if Tag(m) < 0x10 || Tag(m) >= 0x80 {
      SessionInverts(m);
    } else if Tag(m) < 0x14 {
      PointerInverts(m);
    } else if Tag(m) < 0x40 {
      PageInverts(m);
    } else if m.DrawCommands? {
      DrawingInverts(m);
    } else if Tag(m) < 0x60 {
      MediaInverts(m);
    } else if m.LayerUpdate? {
      UpdateInverts(m);
    } else if Tag(m) < 0x70 {
      LayerInverts(m);
    } else {
      TabInverts(m);
    }
  }
}
