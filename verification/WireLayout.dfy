/** The layout of every payload, as what decoding arbitrary bytes gives: which byte belongs to which field. */
module WireLayout {
  import opened Bytes
  import opened Varint
  import opened Wire
  import opened WireRoundTrip
  import PixelPayload

  // Integers at an offset, low byte first.

  function Num16(p: seq<byte>, o: nat): u16
    requires o + 2 <= |p|
  {
    p[o] + 0x100 * (p[o + 1] as int)
  }

  function Num32(p: seq<byte>, o: nat): u32
    requires o + 4 <= |p|
  {
    p[o] + 0x100 * (p[o + 1] as int) + 0x1_0000 * (p[o + 2] as int) + 0x100_0000 * (p[o + 3] as int)
  }

  function Num64(p: seq<byte>, o: nat): u64
    requires o + 8 <= |p|
  {
    Num32(p, o) + 0x1_0000_0000 * Num32(p, o + 4)
  }

  /** Two's complement. */
  function Int32(p: seq<byte>, o: nat): i32
    requires o + 4 <= |p|
  {
    if p[o + 3] < 0x80 then Num32(p, o) else Num32(p, o) - 0x1_0000_0000
  }

  /** Too few bytes, or too many. */
  function WrongSize(p: seq<byte>, size: nat): Error {
    if |p| < size then UnexpectedEof else TrailingBytes
  }

  /** From offset `o` on there is the vector `s`, after its length, and nothing else. */
  predicate VecAt(p: seq<byte>, o: nat, s: seq<byte>) {
    o <= |p| && |s| < TWO_32 && p[o..] == Leb128(|s|) + s
  }

  lemma VecRead(p: seq<byte>, o: nat, s: seq<byte>)
    requires VecAt(p, o, s)
    ensures ReadVec(p[o..]) == Ok((s, []))
  {
    hide ReadVec;
    VecInverts(s, []);
    assert WriteVec(s) + [] == WriteVec(s) == p[o..];
  }

  lemma TextRead(p: seq<byte>, o: nat, s: Str)
    ensures VecAt(p, o, s) ==> ReadStr(p[o..]) == Ok((s, []))
  {
    hide ValidUtf8, ReadVec;
    if VecAt(p, o, s) {
      VecRead(p, o, s);
    }
  }

  lemma TextThen(p: seq<byte>, s: Str, rest: seq<byte>)
    requires |s| < TWO_32 && p == Leb128(|s|) + s + rest
    ensures ReadStr(p) == Ok((s, rest))
  {
    hide ValidUtf8, ReadVec;
    VecInverts(s, rest);
    assert p == WriteVec(s) + rest;
  }

  // ─── The readers at an offset ────────────────────────────────────────────

  lemma DropDrop(p: seq<byte>, o: nat, n: nat)
    requires o + n <= |p|
    ensures p[o..][n..] == p[o + n..]
  {
  }

  /** Each reader gives the field at its offset and goes on behind it, or finds that `p` has ended. */
  lemma ReadersAt(p: seq<byte>)
    ensures p[0..] == p
    ensures forall o: nat {:trigger ReadU8(p[o..])} :: o <= |p| ==>
              ReadU8(p[o..]) == if o + 1 <= |p| then Ok((p[o], p[o + 1..])) else Err(UnexpectedEof)
    ensures forall o: nat {:trigger ReadBool(p[o..])} :: o <= |p| ==>
              ReadBool(p[o..]) == if o + 1 <= |p| then Ok((p[o] != 0, p[o + 1..])) else Err(UnexpectedEof)
    ensures forall o: nat {:trigger ReadU16(p[o..])} :: o <= |p| ==>
              ReadU16(p[o..]) == if o + 2 <= |p| then Ok((Num16(p, o), p[o + 2..])) else Err(UnexpectedEof)
    ensures forall o: nat {:trigger ReadU32(p[o..])} :: o <= |p| ==>
              ReadU32(p[o..]) == if o + 4 <= |p| then Ok((Num32(p, o), p[o + 4..])) else Err(UnexpectedEof)
    ensures forall o: nat {:trigger ReadI32(p[o..])} :: o <= |p| ==>
              ReadI32(p[o..]) == if o + 4 <= |p| then Ok((Int32(p, o), p[o + 4..])) else Err(UnexpectedEof)
    ensures forall o: nat {:trigger ReadU64(p[o..])} :: o <= |p| ==>
              ReadU64(p[o..]) == if o + 8 <= |p| then Ok((Num64(p, o), p[o + 8..])) else Err(UnexpectedEof)
    ensures forall o: nat {:trigger ReadHash(p[o..])} :: o <= |p| ==>
              ReadHash(p[o..]) == if o + 32 <= |p| then Ok((p[o..o + 32], p[o + 32..])) else Err(UnexpectedEof)
  {
    forall o: nat, n: nat | o + n <= |p|
      ensures p[o..][n..] == p[o + n..]
    {
      DropDrop(p, o, n);
    }
    forall o: nat | o + 32 <= |p|
      ensures p[o..][..32] == p[o..o + 32]
    {
    }
  }

  // ─── Sessions and input ──────────────────────────────────────────────────

  lemma SessionLayout(p: seq<byte>)
    ensures DecodePayload(0x03, p)
         == if |p| == 6 then Ok(Resize(Num16(p, 0), Num16(p, 2), Num16(p, 4))) else Err(WrongSize(p, 6))
    ensures DecodePayload(0x05, p) == if |p| == 8 then Ok(Heartbeat(Num64(p, 0))) else Err(WrongSize(p, 8))
    ensures DecodePayload(0x06, p) == if |p| == 1 then Ok(NavAction(p[0])) else Err(WrongSize(p, 1))
    ensures DecodePayload(0x07, p) == if |p| == 0 then Ok(Stop) else Err(TrailingBytes)
    ensures DecodePayload(0x80, p)
         == if |p| == 3 then Ok(ClearData(p[0] != 0, p[1] != 0, p[2] != 0)) else Err(WrongSize(p, 3))
    ensures DecodePayload(0x90, p) == if |p| == 32 then Ok(AuthChallenge(p)) else Err(WrongSize(p, 32))
    ensures DecodePayload(0x91, p) == if |p| == 32 then Ok(AuthResponse(p)) else Err(WrongSize(p, 32))
  {
    hide ReadInput, ReadFrame, ReadMedia, ReadScene, ReadTab;
    hide ReadU8, ReadBool, ReadU16, ReadU32, ReadI32, ReadU64, ReadHash, Num16, Num32, Num64, Int32;
    ReadersAt(p);
    if |p| == 32 {
      assert p[0..32] == p;
    }
  }

  /** The text comes last, wherever its message keeps it. */
  lemma GreetingLayout(p: seq<byte>, text: Str)
    ensures VecAt(p, 14, text) ==>
              DecodePayload(0x01, p)
              == Ok(Hello(Num32(p, 0), Num16(p, 4), Num16(p, 6), Num16(p, 8), text, Num32(p, 10)))
    ensures VecAt(p, 20, text) ==>
              DecodePayload(0x02, p) == Ok(Welcome(Num32(p, 0), Num64(p, 4), Num32(p, 12), Num32(p, 16), text))
    ensures VecAt(p, 0, text) ==>
              DecodePayload(0x04, p) == Ok(Nav(text)) && DecodePayload(0x92, p) == Ok(AuthSuccess(text))
  {
    hide ReadInput, ReadFrame, ReadMedia, ReadScene, ReadTab, ReadVec;
    hide ReadU8, ReadBool, ReadU16, ReadU32, ReadI32, ReadU64, ReadHash, Num16, Num32, Num64, Int32;
    ReadersAt(p);
    TextRead(p, 14, text);
    TextRead(p, 20, text);
    TextRead(p, 0, text);
  }

  lemma InputLayout(p: seq<byte>)
    ensures DecodePayload(0x10, p)
         == if |p| == 20 then Ok(InputPointer(Num64(p, 0), Int32(p, 8), Int32(p, 12), Num32(p, 16)))
            else Err(WrongSize(p, 20))
    ensures DecodePayload(0x11, p)
         == if |p| == 17 then Ok(InputKey(Num64(p, 0), Num32(p, 8), Num32(p, 12), p[16] != 0))
            else Err(WrongSize(p, 17))
    ensures DecodePayload(0x14, p) == if |p| == 4 then Ok(SetZoom(Num32(p, 0))) else Err(WrongSize(p, 4))
  {
    hide ReadSession, ReadFrame, ReadMedia, ReadScene, ReadTab;
    hide ReadU8, ReadBool, ReadU16, ReadU32, ReadI32, ReadU64, ReadHash, Num16, Num32, Num64, Int32;
    ReadersAt(p);
  }

  const PHASES: seq<ScrollPhase> := [Begin, Update, End, Momentum]

  lemma ButtonLayout(p: seq<byte>)
    ensures DecodePayload(0x13, p)
         == if |p| == 25 then
              Ok(InputButton(Num64(p, 0), Int32(p, 8), Int32(p, 12), Num32(p, 16), p[20] != 0, Num32(p, 21)))
            else Err(WrongSize(p, 25))
    ensures |p| == 21 ==>
              DecodePayload(0x12, p)
              == if 1 <= p[20] <= 4 then
                   Ok(InputScroll(Num64(p, 0), Num32(p, 8), Int32(p, 12), Int32(p, 16), PHASES[p[20] - 1]))
                 else Err(InvalidValue)
  {
    hide ReadSession, ReadFrame, ReadMedia, ReadScene, ReadTab;
    hide ReadU8, ReadBool, ReadU16, ReadU32, ReadI32, ReadU64, ReadHash, Num16, Num32, Num64, Int32;
    ReadersAt(p);
  }

  // ─── Pages and tabs ──────────────────────────────────────────────────────

  const SHAPES: seq<CursorShape> := [
    Default, Pointer, Text, Progress, Wait, Crosshair, Move, NotAllowed, Grab, Grabbing,
    ResizeEw, ResizeNs, ResizeNesw, ResizeNwse]

  lemma ShapeRead(p: seq<byte>)
    requires p != []
    ensures ReadShape(p) == if p[0] < 14 then Ok((SHAPES[p[0]], p[1..]))
                            else if p[0] == 255 then Ok((Custom, p[1..])) else Err(InvalidValue)
  {
  }

  lemma PageLayout(p: seq<byte>)
    ensures DecodePayload(0x31, p) == if |p| == 1 then Ok(LoadState(p[0])) else Err(WrongSize(p, 1))
    ensures |p| == 13 ==>
              DecodePayload(0x30, p)
              == if p[0] < 14 then Ok(CursorState(SHAPES[p[0]], Num16(p, 1), Num16(p, 3), Num64(p, 5)))
                 else if p[0] == 255 then Ok(CursorState(Custom, Num16(p, 1), Num16(p, 3), Num64(p, 5)))
                 else Err(InvalidValue)
  {
    hide ReadSession, ReadFrame, ReadMedia, ReadScene, ReadTab, ReadShape;
    hide ReadU8, ReadBool, ReadU16, ReadU32, ReadI32, ReadU64, ReadHash, Num16, Num32, Num64, Int32;
    ReadersAt(p);
    if |p| == 13 {
      ShapeRead(p);
    }
  }

  lemma PageTextLayout(p: seq<byte>, text: Str)
    requires VecAt(p, 0, text)
    ensures DecodePayload(0x32, p) == Ok(Title(text)) && DecodePayload(0x33, p) == Ok(UrlChanged(text))
  {
    hide ReadSession, ReadFrame, ReadMedia, ReadScene, ReadTab, ReadVec;
    hide ReadU8, ReadBool, ReadU16, ReadU32, ReadI32, ReadU64, ReadHash, Num16, Num32, Num64, Int32;
    ReadersAt(p);
    TextRead(p, 0, text);
  }

  lemma TabLayout(p: seq<byte>)
    ensures DecodePayload(0x71, p) == if |p| == 4 then Ok(Message.CloseTab(Num32(p, 0))) else Err(WrongSize(p, 4))
    ensures DecodePayload(0x72, p) == if |p| == 4 then Ok(SwitchTab(Num32(p, 0))) else Err(WrongSize(p, 4))
    ensures DecodePayload(0x74, p) == if |p| == 4 then Ok(TabClosed(Num32(p, 0))) else Err(WrongSize(p, 4))
    ensures DecodePayload(0x75, p) == if |p| == 4 then Ok(TabActivated(Num32(p, 0))) else Err(WrongSize(p, 4))
  {
    hide ReadSession, ReadInput, ReadFrame, ReadMedia, ReadScene;
    hide ReadU8, ReadBool, ReadU16, ReadU32, ReadI32, ReadU64, ReadHash, Num16, Num32, Num64, Int32;
    ReadersAt(p);
  }

  lemma TabTextLayout(p: seq<byte>, text: Str)
    requires VecAt(p, 4, text)
    ensures DecodePayload(0x70, p) == Ok(CreateTab(Num32(p, 0), text))
    ensures DecodePayload(0x76, p) == Ok(TabTitle(Num32(p, 0), text))
    ensures DecodePayload(0x77, p) == Ok(TabUrl(Num32(p, 0), text))
  {
    hide ReadSession, ReadInput, ReadFrame, ReadMedia, ReadScene, ReadVec;
    hide ReadU8, ReadBool, ReadU16, ReadU32, ReadI32, ReadU64, ReadHash, Num16, Num32, Num64, Int32;
    ReadersAt(p);
    TextRead(p, 4, text);
  }

  lemma CreatedLayout(p: seq<byte>, title: Str, url: Str)
    requires |p| >= 4 && |title| < TWO_32 && |url| < TWO_32
    requires p[4..] == Leb128(|title|) + title + (Leb128(|url|) + url)
    ensures DecodePayload(0x73, p) == Ok(TabCreated(Num32(p, 0), title, url))
  {
    hide ReadSession, ReadInput, ReadFrame, ReadMedia, ReadScene, ReadStr, Leb128;
    hide ReadU8, ReadBool, ReadU16, ReadU32, ReadI32, ReadU64, ReadHash, Num16, Num32, Num64, Int32;
    ReadersAt(p);
    TextThen(p[4..], title, Leb128(|url|) + url);
    var q := Leb128(|url|) + url;
    assert q + [] == q;
    TextThen(q, url, []);
  }

  // ─── Pictures ────────────────────────────────────────────────────────────

  /** The size of the picture comes before the pixels, which take up the rest. */
  lemma FrameLayout(p: seq<byte>)
    requires |p| >= 21
    ensures var (w, h, stride) := (Num16(p, 8), Num16(p, 10), Num32(p, 12));
            var px := PixelPayload.ReadPixels(p[21..], p[20], w, h, PixelBytes(stride, h));
            && DecodePayload(0x40, p)
               == (if px.Err? then Err(px.error)
                   else Ok(RawFrame(Num64(p, 0), w, h, stride, Num32(p, 16), p[20], px.value)))
            && DecodePayload(0x42, p)
               == (if px.Err? then Err(px.error)
                   else Ok(TileData(Num64(p, 0), w, h, stride, Num32(p, 16), p[20], px.value)))
  {
    hide ReadSession, ReadInput, ReadMedia, ReadScene, ReadTab, PixelPayload.ReadPixels, PixelBytes;
    hide ReadU8, ReadBool, ReadU16, ReadU32, ReadI32, ReadU64, ReadHash, Num16, Num32, Num64, Int32;
    ReadersAt(p);
  }

  lemma SubframeLayout(p: seq<byte>)
    requires |p| >= 25
    ensures var px := PixelPayload.ReadPixels(p[25..], p[24], Num16(p, 12), Num16(p, 14),
                                             PixelBytes(Num32(p, 16), Num16(p, 14)));
            DecodePayload(0x41, p)
            == if px.Err? then Err(px.error)
               else Ok(Message.Subframe(Num64(p, 0), Num16(p, 8), Num16(p, 10), Num16(p, 12), Num16(p, 14),
                                        Num32(p, 16), Num32(p, 20), p[24], px.value))
  {
    hide ReadSession, ReadInput, ReadMedia, ReadScene, ReadTab, PixelPayload.ReadPixels, PixelBytes;
    hide ReadU8, ReadBool, ReadU16, ReadU32, ReadI32, ReadU64, ReadHash, Num16, Num32, Num64, Int32;
    ReadersAt(p);
  }

  lemma MediaLayout(p: seq<byte>, data: seq<byte>)
    ensures VecAt(p, 14, data) ==>
              DecodePayload(0x48, p) == Ok(AudioFrame(Num64(p, 0), p[8], p[9], Num32(p, 10), data))
    ensures VecAt(p, 18, data) ==>
              DecodePayload(0x49, p) == Ok(VideoChunk(Num64(p, 0), Num32(p, 8), p[12] != 0, p[13], Num32(p, 14), data))
  {
    hide ReadSession, ReadInput, ReadFrame, ReadScene, ReadTab, ReadVec, ReadDrawCmds;
    hide ReadU8, ReadBool, ReadU16, ReadU32, ReadI32, ReadU64, ReadHash, Num16, Num32, Num64, Int32;
    ReadersAt(p);
    if VecAt(p, 14, data) {
      VecRead(p, 14, data);
    }
    if VecAt(p, 18, data) {
      VecRead(p, 18, data);
    }
  }

  lemma AssetLayout(p: seq<byte>, data: seq<byte>)
    ensures DecodePayload(0x43, p)
         == if |p| == 24 then
              Ok(TileRef(Num64(p, 0), Num16(p, 8), Num16(p, 10), Num16(p, 12), Num16(p, 14), Num64(p, 16)))
            else Err(WrongSize(p, 24))
    ensures VecAt(p, 33, data) ==> DecodePayload(0x50, p) == Ok(AssetRegister(p[..32], p[32], data))
  {
    hide ReadSession, ReadInput, ReadFrame, ReadScene, ReadTab, ReadVec, ReadDrawCmds;
    hide ReadU8, ReadBool, ReadU16, ReadU32, ReadI32, ReadU64, ReadHash, Num16, Num32, Num64, Int32;
    ReadersAt(p);
    if VecAt(p, 33, data) {
      VecRead(p, 33, data);
    }
  }

  lemma DrawingLayout(p: seq<byte>, n: u32, cmds: seq<byte>, commands: seq<DrawCommand>)
    requires |p| >= 12 && p[12..] == Leb128(n) + cmds && ReadDrawCmds(cmds, n) == Ok((commands, []))
    ensures DecodePayload(0x51, p) == Ok(DrawCommands(Num64(p, 0), Num32(p, 8), commands))
  {
    hide ReadSession, ReadInput, ReadFrame, ReadScene, ReadTab, ReadVec, ReadDrawCmds, ReadVarintSpec, Leb128;
    hide ReadU8, ReadBool, ReadU16, ReadU32, ReadI32, ReadU64, ReadHash, Num16, Num32, Num64, Int32;
    ReadersAt(p);
    VarintRoundTrip(n, cmds);
  }

  lemma DrawLayout(p: seq<byte>)
    requires p != []
    ensures ReadDrawCmd(p).Ok? ==> 1 <= p[0] <= 6
    ensures p[0] == 1 && |p| >= 21 ==>
              ReadDrawCmd(p)
              == Ok((FillRect(Int32(p, 1), Int32(p, 5), Num32(p, 9), Num32(p, 13), Num32(p, 17)), p[21..]))
    ensures p[0] == 2 && |p| >= 23 ==>
              ReadDrawCmd(p)
              == Ok((StrokeRect(Int32(p, 1), Int32(p, 5), Num32(p, 9), Num32(p, 13), Num32(p, 17), Num16(p, 21)),
                     p[23..]))
    ensures p[0] == 4 && |p| >= 49 ==>
              ReadDrawCmd(p)
              == Ok((DrawImage(Int32(p, 1), Int32(p, 5), Num32(p, 9), Num32(p, 13), p[17..49]), p[49..]))
    ensures p[0] == 5 && |p| >= 17 ==>
              ReadDrawCmd(p) == Ok((SetClip(Int32(p, 1), Int32(p, 5), Num32(p, 9), Num32(p, 13)), p[17..]))
    ensures p[0] == 6 ==> ReadDrawCmd(p) == Ok((ClearClip, p[1..]))
  {
    hide ReadVec, ReadStr;
    hide ReadU8, ReadBool, ReadU16, ReadU32, ReadI32, ReadU64, ReadHash, Num16, Num32, Num64, Int32;
    ReadersAt(p);
  }

  lemma TextLayout(p: seq<byte>, text: Str, rest: seq<byte>)
    requires |p| >= 15 && p[0] == 3 && |text| < TWO_32 && p[15..] == Leb128(|text|) + text + rest
    ensures ReadDrawCmd(p) == Ok((DrawText(Int32(p, 1), Int32(p, 5), Num16(p, 9), Num32(p, 11), text), rest))
  {
    hide ReadStr, Leb128;
    hide ReadU8, ReadBool, ReadU16, ReadU32, ReadI32, ReadU64, ReadHash, Num16, Num32, Num64, Int32;
    ReadersAt(p);
    TextThen(p[15..], text, rest);
  }

  // ─── Layers ──────────────────────────────────────────────────────────────

  function TransformAt(p: seq<byte>, o: nat): Transform
    requires o + 24 <= |p|
  {
    [Int32(p, o), Int32(p, o + 4), Int32(p, o + 8), Int32(p, o + 12), Int32(p, o + 16), Int32(p, o + 20)]
  }

  const KINDS: seq<LayerKind> := [Solid, Video, Tile, Vector]

  lemma NextInt(p: seq<byte>, o: nat, n: nat, vs: seq<i32>, rest: seq<byte>)
    requires o + 4 <= |p| && ReadI32s(p[o + 4..], n) == Ok((vs, rest))
    ensures ReadI32s(p[o..], n + 1) == Ok(([Int32(p, o)] + vs, rest))
  {
    assert p[o..][4..] == p[o + 4..];
  }

  lemma TransformRead(p: seq<byte>, o: nat)
    requires o + 24 <= |p|
    ensures ReadTransform(p[o..]) == Ok((TransformAt(p, o), p[o + 24..]))
  {
    var rest := p[o + 24..];
    assert ReadI32s(rest, 0) == Ok(([], rest));
    hide ReadI32s, Int32;
    NextInt(p, o + 20, 0, [], rest);
    NextInt(p, o + 16, 1, [Int32(p, o + 20)] + [], rest);
    NextInt(p, o + 12, 2, [Int32(p, o + 16)] + ([Int32(p, o + 20)] + []), rest);
    var vs := [Int32(p, o + 12)] + ([Int32(p, o + 16)] + ([Int32(p, o + 20)] + []));
    NextInt(p, o + 8, 3, vs, rest);
    NextInt(p, o + 4, 4, [Int32(p, o + 8)] + vs, rest);
    NextInt(p, o, 5, [Int32(p, o + 4)] + ([Int32(p, o + 8)] + vs), rest);
    assert [Int32(p, o)] + ([Int32(p, o + 4)] + ([Int32(p, o + 8)] + vs)) == TransformAt(p, o);
  }

  lemma ContentLayout(p: seq<byte>)
    requires p != []
    ensures p[0] == 0 ==> ReadContentRef(p) == Ok((NoContent, p[1..]))
    ensures p[0] == 1 && |p| >= 5 ==> ReadContentRef(p) == Ok((SolidColor(Num32(p, 1)), p[5..]))
    ensures p[0] == 2 && |p| >= 9 ==> ReadContentRef(p) == Ok((TrackId(Num64(p, 1)), p[9..]))
    ensures p[0] == 3 && |p| >= 33 ==> ReadContentRef(p) == Ok((AssetHash(p[1..33]), p[33..]))
    ensures p[0] > 3 ==> ReadContentRef(p) == Err(InvalidValue)
  {
    hide ReadU8, ReadBool, ReadU16, ReadU32, ReadI32, ReadU64, ReadHash, Num16, Num32, Num64, Int32;
    ReadersAt(p);
  }

  lemma SceneLayout(p: seq<byte>)
    ensures DecodePayload(0x62, p) == if |p| == 4 then Ok(LayerRemove(Num32(p, 0))) else Err(WrongSize(p, 4))
    ensures DecodePayload(0x63, p) == if |p| == 8 then Ok(SceneCommit(Num64(p, 0))) else Err(WrongSize(p, 8))
  {
    hide ReadSession, ReadInput, ReadFrame, ReadMedia, ReadTab;
    hide ReadU8, ReadBool, ReadU16, ReadU32, ReadI32, ReadU64, ReadHash, Num16, Num32, Num64, Int32;
    ReadersAt(p);
  }

  lemma LayerLayout(p: seq<byte>, content: ContentRef)
    requires |p| >= 38 && p[8] < 4 && ReadContentRef(p[38..]) == Ok((content, []))
    ensures DecodePayload(0x60, p)
         == Ok(LayerAdd(Num32(p, 0), Num32(p, 4), KINDS[p[8]], Num16(p, 9), Num16(p, 11), TransformAt(p, 13),
                        p[37], content))
  {
    hide ReadSession, ReadInput, ReadFrame, ReadMedia, ReadTab, ReadTransform, ReadContentRef, TransformAt;
    hide ReadU8, ReadBool, ReadU16, ReadU32, ReadI32, ReadU64, ReadHash, Num16, Num32, Num64, Int32;
    ReadersAt(p);
    TransformRead(p, 13);
  }

  /** Bits 0 to 4 of the mask tell which of transform, opacity, size, content and damage follow, in that order. */
  lemma UpdateLayout(p: seq<byte>, content: ContentRef, rest: seq<byte>)
    requires |p| >= 8
    ensures Num32(p, 4) == 31 && |p| >= 37 && |rest| == 8 && ReadContentRef(p[37..]) == Ok((content, rest)) ==>
              DecodePayload(0x61, p)
              == Ok(LayerUpdate(Num32(p, 0), 31, TransformAt(p, 8), p[32], Num16(p, 33), Num16(p, 35), content,
                                (Num16(rest, 0), Num16(rest, 2), Num16(rest, 4), Num16(rest, 6))))
  {
    hide ReadSession, ReadInput, ReadFrame, ReadMedia, ReadTab, ReadTransform, ReadContentRef, TransformAt;
    hide ReadU8, ReadBool, ReadU16, ReadU32, ReadI32, ReadU64, ReadHash, Num16, Num32, Num64, Int32;
    ReadersAt(p);
    ReadersAt(rest);
    if |p| >= 32 {
      TransformRead(p, 8);
    }
  }

  /** With one bit set, only that field follows; the others take their defaults. */
  lemma PartialLayout(p: seq<byte>, content: ContentRef)
    requires |p| >= 8
    ensures Num32(p, 4) == 1 && |p| == 32 ==>
              DecodePayload(0x61, p)
              == Ok(LayerUpdate(Num32(p, 0), 1, TransformAt(p, 8), 255, 0, 0, NoContent, (0, 0, 0, 0)))
    ensures Num32(p, 4) == 2 && |p| == 9 ==>
              DecodePayload(0x61, p)
              == Ok(LayerUpdate(Num32(p, 0), 2, TRANSFORM_IDENTITY, p[8], 0, 0, NoContent, (0, 0, 0, 0)))
    ensures Num32(p, 4) == 4 && |p| == 12 ==>
              DecodePayload(0x61, p)
              == Ok(LayerUpdate(Num32(p, 0), 4, TRANSFORM_IDENTITY, 255, Num16(p, 8), Num16(p, 10), NoContent,
                                (0, 0, 0, 0)))
    ensures Num32(p, 4) == 8 && ReadContentRef(p[8..]) == Ok((content, [])) ==>
              DecodePayload(0x61, p)
              == Ok(LayerUpdate(Num32(p, 0), 8, TRANSFORM_IDENTITY, 255, 0, 0, content, (0, 0, 0, 0)))
    ensures Num32(p, 4) == 16 && |p| == 16 ==>
              DecodePayload(0x61, p)
              == Ok(LayerUpdate(Num32(p, 0), 16, TRANSFORM_IDENTITY, 255, 0, 0, NoContent,
                                (Num16(p, 8), Num16(p, 10), Num16(p, 12), Num16(p, 14))))
  {
    hide ReadSession, ReadInput, ReadFrame, ReadMedia, ReadTab, ReadTransform, ReadContentRef, TransformAt;
    hide ReadU8, ReadBool, ReadU16, ReadU32, ReadI32, ReadU64, ReadHash, Num16, Num32, Num64, Int32;
    ReadersAt(p);
    if |p| >= 32 {
      TransformRead(p, 8);
    }
  }

  // ─── Tags ────────────────────────────────────────────────────────────────

  /** Every other tag is refused, whatever follows. */
  lemma UnknownTags(tag: u32, p: seq<byte>)
    requires tag == 0 || 0x08 <= tag < 0x10 || 0x15 <= tag < 0x30 || 0x34 <= tag < 0x40 || 0x44 <= tag < 0x48
             || 0x4A <= tag < 0x50 || 0x52 <= tag < 0x60 || 0x64 <= tag < 0x70 || 0x78 <= tag < 0x80
             || 0x81 <= tag < 0x90 || 0x93 <= tag
    ensures DecodePayload(tag, p) == Err(UnknownTag(tag))
  {
  }
}
