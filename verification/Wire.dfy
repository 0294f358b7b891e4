/** The message vocabulary of the link and how each message's payload is laid out and read back. */
module Wire {
  import opened Bytes
  import opened Varint
  import PixelPayload

  // ─── Strings, byte vectors, hashes ───────────────────────────────────────

  predicate Continuation(b: byte) {
    0x80 <= b < 0xC0
  }

  /** Well-formed UTF-8 (section 4 of RFC 3629). */
  predicate ValidUtf8(s: seq<byte>) {
    if s == [] then true
    else if s[0] < 0x80 then ValidUtf8(s[1..])
    else if 0xC2 <= s[0] < 0xE0 then |s| >= 2 && Continuation(s[1]) && ValidUtf8(s[2..])
    else if 0xE0 <= s[0] < 0xF0 then
      && |s| >= 3 && Continuation(s[1]) && Continuation(s[2])
      && (s[0] == 0xE0 ==> s[1] >= 0xA0) && (s[0] == 0xED ==> s[1] < 0xA0)
      && ValidUtf8(s[3..])
    else
      && 0xF0 <= s[0] < 0xF5 && |s| >= 4 && Continuation(s[1]) && Continuation(s[2]) && Continuation(s[3])
      && (s[0] == 0xF0 ==> s[1] >= 0x90) && (s[0] == 0xF4 ==> s[1] < 0x90)
      && ValidUtf8(s[4..])
  }

  type Str = s: seq<byte> | ValidUtf8(s) witness []
  type Hash32 = s: seq<byte> | |s| == 32 witness seq(32, _ => 0)
  /** A 3x2 affine matrix in 24.8 fixed point. */
  type Transform = s: seq<i32> | |s| == 6 witness seq(6, _ => 0)

  const TRANSFORM_IDENTITY: Transform := [0x100, 0, 0, 0x100, 0, 0]

  // ─── Messages ────────────────────────────────────────────────────────────

  datatype ScrollPhase = Begin | Update | End | Momentum

  datatype LayerKind = Solid | Video | Tile | Vector

  datatype CursorShape =
    | Default | Pointer | Text | Progress | Wait | Crosshair | Move | NotAllowed | Grab | Grabbing
    | ResizeEw | ResizeNs | ResizeNesw | ResizeNwse | Custom

  datatype ContentRef = NoContent | SolidColor(rgba: u32) | TrackId(track: u64) | AssetHash(asset: Hash32)

  datatype DrawCommand =
    | FillRect(x: i32, y: i32, w: u32, h: u32, rgba: u32)
    | StrokeRect(x: i32, y: i32, w: u32, h: u32, rgba: u32, lineWidth: u16)
    | DrawText(x: i32, y: i32, fontSize: u16, rgba: u32, text: Str)
    | DrawImage(x: i32, y: i32, w: u32, h: u32, assetHash: Hash32)
    | SetClip(x: i32, y: i32, w: u32, h: u32)
    | ClearClip

  datatype Message =
    | Hello(protoVersion: u32, viewportW: u16, viewportH: u16, dprHundredths: u16, clientName: Str, capabilities: u32)
    | Welcome(protoVersion: u32, sessionId: u64, features: u32, cursorTrackId: u32, currentUrl: Str)
    | Resize(viewportW: u16, viewportH: u16, dprHundredths: u16)
    | Nav(url: Str)
    | NavAction(action: byte)
    | Stop
    | Heartbeat(tsUs: u64)
    | InputPointer(tsUs: u64, px: i32, py: i32, modifiers: u32)
    | InputButton(tsUs: u64, px: i32, py: i32, button: u32, pressed: bool, modifiers: u32)
    | InputKey(tsUs: u64, keycode: u32, modifiers: u32, pressed: bool)
    | InputScroll(tsUs: u64, layerId: u32, dxUnits: i32, dyUnits: i32, phase: ScrollPhase)
    | SetZoom(levelMilli: u32)
    | CursorState(shape: CursorShape, hotspotX: u16, hotspotY: u16, imageRef: u64)
    | LoadState(state: byte)
    | Title(title: Str)
    | UrlChanged(url: Str)
    | RawFrame(tsUs: u64, w: u16, h: u16, stride: u32, format: u32, compression: byte, pixels: seq<byte>)
    | Subframe(tsUs: u64, x: u16, y: u16, w: u16, h: u16, stride: u32, format: u32, compression: byte,
               pixels: seq<byte>)
    | TileData(hash: u64, w: u16, h: u16, stride: u32, format: u32, compression: byte, pixels: seq<byte>)
    | TileRef(tsUs: u64, x: u16, y: u16, w: u16, h: u16, hash: u64)
    | AssetRegister(asset: Hash32, assetKind: byte, data: seq<byte>)
    | DrawCommands(tsUs: u64, layerId: u32, commands: seq<DrawCommand>)
    | AudioFrame(ptsUs: u64, codec: byte, channels: byte, sampleRate: u32, data: seq<byte>)
    | VideoChunk(ptsUs: u64, durationUs: u32, isKeyframe: bool, codec: byte, layerId: u32, data: seq<byte>)
    | LayerAdd(id: u32, parent: u32, kind: LayerKind, sizeW: u16, sizeH: u16, transform: Transform, opacity: byte,
               content: ContentRef)
    | LayerUpdate(id: u32, mask: u32, transform: Transform, opacity: byte, sizeW: u16, sizeH: u16,
                  content: ContentRef, damage: (u16, u16, u16, u16))
    | LayerRemove(id: u32)
    | SceneCommit(version: u64)
    | CreateTab(tabId: u32, url: Str)
    | CloseTab(tabId: u32)
    | SwitchTab(tabId: u32)
    | TabCreated(tabId: u32, title: Str, url: Str)
    | TabClosed(tabId: u32)
    | TabActivated(tabId: u32)
    | TabTitle(tabId: u32, title: Str)
    | TabUrl(tabId: u32, url: Str)
    | ClearData(clearCookies: bool, clearCache: bool, clearStorage: bool)
    | AuthChallenge(nonce: Hash32)
    | AuthResponse(tokenHash: Hash32)
    | AuthSuccess(nodeId: Str)

  function Tag(m: Message): u32 {
    match m
    case Hello(_, _, _, _, _, _) => 0x01
    case Welcome(_, _, _, _, _) => 0x02
    case Resize(_, _, _) => 0x03
    case Nav(_) => 0x04
    case Heartbeat(_) => 0x05
    case NavAction(_) => 0x06
    case Stop => 0x07
    case InputPointer(_, _, _, _) => 0x10
    case InputKey(_, _, _, _) => 0x11
    case InputScroll(_, _, _, _, _) => 0x12
    case InputButton(_, _, _, _, _, _) => 0x13
    case SetZoom(_) => 0x14
    case CursorState(_, _, _, _) => 0x30
    case LoadState(_) => 0x31
    case Title(_) => 0x32
    case UrlChanged(_) => 0x33
    case RawFrame(_, _, _, _, _, _, _) => 0x40
    case Subframe(_, _, _, _, _, _, _, _, _) => 0x41
    case TileData(_, _, _, _, _, _, _) => 0x42
    case TileRef(_, _, _, _, _, _) => 0x43
    case AudioFrame(_, _, _, _, _) => 0x48
    case VideoChunk(_, _, _, _, _, _) => 0x49
    case AssetRegister(_, _, _) => 0x50
    case DrawCommands(_, _, _) => 0x51
    case LayerAdd(_, _, _, _, _, _, _, _) => 0x60
    case LayerUpdate(_, _, _, _, _, _, _, _) => 0x61
    case LayerRemove(_) => 0x62
    case SceneCommit(_) => 0x63
    case CreateTab(_, _) => 0x70
    case CloseTab(_) => 0x71
    case SwitchTab(_) => 0x72
    case TabCreated(_, _, _) => 0x73
    case TabClosed(_) => 0x74
    case TabActivated(_) => 0x75
    case TabTitle(_, _) => 0x76
    case TabUrl(_, _) => 0x77
    case ClearData(_, _, _) => 0x80
    case AuthChallenge(_) => 0x90
    case AuthResponse(_) => 0x91
    case AuthSuccess(_) => 0x92
  }

  // ─── Field writers ───────────────────────────────────────────────────────

  /** A length-prefixed byte string; the length is cast to 32 bits. */
  function WriteVec(s: seq<byte>): seq<byte> {
    Leb128(|s| % TWO_32) + s
  }

  function WriteBool(b: bool): seq<byte> {
    [if b then 1 else 0]
  }

  function WriteI32s(t: seq<i32>): seq<byte> {
    if t == [] then [] else LeI32(t[0]) + WriteI32s(t[1..])
  }

  function WriteContentRef(r: ContentRef): seq<byte> {
    match r
    case NoContent => [0]
    case SolidColor(rgba) => [1] + Le32(rgba)
    case TrackId(t) => [2] + Le64(t)
    case AssetHash(h) => [3] + h
  }

  /** A drawing command followed by `tail`. */
  function WriteDrawCmd(c: DrawCommand, tail: seq<byte>): seq<byte> {
    match c
    case FillRect(x, y, w, h, rgba) =>
      [1] + (LeI32(x) + (LeI32(y) + (Le32(w) + (Le32(h) + (Le32(rgba) + tail)))))
    case StrokeRect(x, y, w, h, rgba, lw) =>
      [2] + (LeI32(x) + (LeI32(y) + (Le32(w) + (Le32(h) + (Le32(rgba) + (Le16(lw) + tail))))))
    case DrawText(x, y, size, rgba, text) =>
      [3] + (LeI32(x) + (LeI32(y) + (Le16(size) + (Le32(rgba) + (WriteVec(text) + tail)))))
    case DrawImage(x, y, w, h, asset) =>
      [4] + (LeI32(x) + (LeI32(y) + (Le32(w) + (Le32(h) + (asset + tail)))))
    case SetClip(x, y, w, h) =>
      [5] + (LeI32(x) + (LeI32(y) + (Le32(w) + (Le32(h) + tail))))
    case ClearClip => [6] + tail
  }

  function WriteDrawCmds(cs: seq<DrawCommand>, tail: seq<byte>): seq<byte> {
    if cs == [] then tail else WriteDrawCmd(cs[0], WriteDrawCmds(cs[1..], tail))
  }

  function PhaseByte(p: ScrollPhase): byte {
    match p case Begin => 1 case Update => 2 case End => 3 case Momentum => 4
  }

  function KindByte(k: LayerKind): byte {
    match k case Solid => 0 case Video => 1 case Tile => 2 case Vector => 3
  }

  function ShapeByte(s: CursorShape): byte {
    match s
    case Default => 0 case Pointer => 1 case Text => 2 case Progress => 3 case Wait => 4 case Crosshair => 5
    case Move => 6 case NotAllowed => 7 case Grab => 8 case Grabbing => 9 case ResizeEw => 10
    case ResizeNs => 11 case ResizeNesw => 12 case ResizeNwse => 13 case Custom => 255
  }

  // Bits of a LayerUpdate mask.
  const TRANSFORM := 1
  const OPACITY := 2
  const SIZE := 4
  const CONTENT_REF := 8
  const DAMAGE := 16

  predicate Has(mask: u32, bit: int)
    requires bit > 0
  {
    mask / bit % 2 == 1
  }

  function When(present: bool, field: seq<byte>): seq<byte> {
    if present then field else []
  }

  /** The fields of `m` in wire order, followed by `tail`: the encoded pixels of a pixel message, else nothing. */
  function Payload(m: Message, tail: seq<byte>): seq<byte> {
    match m
    case Hello(v, w, h, dpr, name, cap) =>
      Le32(v) + (Le16(w) + (Le16(h) + (Le16(dpr) + (Le32(cap) + (WriteVec(name) + tail)))))
    case Welcome(v, session, features, cursor, url) =>
      Le32(v) + (Le64(session) + (Le32(features) + (Le32(cursor) + (WriteVec(url) + tail))))
    case Resize(w, h, dpr) => Le16(w) + (Le16(h) + (Le16(dpr) + tail))
    case Nav(url) => WriteVec(url) + tail
    case NavAction(a) => [a] + tail
    case Stop => tail
    case Heartbeat(ts) => Le64(ts) + tail
    case InputPointer(ts, x, y, mods) => Le64(ts) + (LeI32(x) + (LeI32(y) + (Le32(mods) + tail)))
    case InputButton(ts, x, y, button, pressed, mods) =>
      Le64(ts) + (LeI32(x) + (LeI32(y) + (Le32(button) + (WriteBool(pressed) + (Le32(mods) + tail)))))
    case InputKey(ts, key, mods, down) => Le64(ts) + (Le32(key) + (Le32(mods) + (WriteBool(down) + tail)))
    case InputScroll(ts, layer, dx, dy, phase) =>
      Le64(ts) + (Le32(layer) + (LeI32(dx) + (LeI32(dy) + ([PhaseByte(phase)] + tail))))
    case SetZoom(level) => Le32(level) + tail
    case CursorState(shape, x, y, image) => [ShapeByte(shape)] + (Le16(x) + (Le16(y) + (Le64(image) + tail)))
    case LoadState(state) => [state] + tail
    case Title(title) => WriteVec(title) + tail
    case UrlChanged(url) => WriteVec(url) + tail
    case RawFrame(ts, w, h, stride, format, comp, _) =>
      Le64(ts) + (Le16(w) + (Le16(h) + (Le32(stride) + (Le32(format) + ([comp] + tail)))))
    case Subframe(ts, x, y, w, h, stride, format, comp, _) =>
      Le64(ts) + (Le16(x) + (Le16(y) + (Le16(w) + (Le16(h) + (Le32(stride) + (Le32(format) + ([comp] + tail)))))))
    case TileData(hash, w, h, stride, format, comp, _) =>
      Le64(hash) + (Le16(w) + (Le16(h) + (Le32(stride) + (Le32(format) + ([comp] + tail)))))
    case TileRef(ts, x, y, w, h, hash) =>
      Le64(ts) + (Le16(x) + (Le16(y) + (Le16(w) + (Le16(h) + (Le64(hash) + tail)))))
    case AssetRegister(asset, kind, data) => asset + ([kind] + (WriteVec(data) + tail))
    case DrawCommands(ts, layer, commands) =>
      Le64(ts) + (Le32(layer) + (Leb128(|commands| % TWO_32) + WriteDrawCmds(commands, tail)))
    case AudioFrame(pts, codec, channels, rate, data) =>
      Le64(pts) + ([codec] + ([channels] + (Le32(rate) + (WriteVec(data) + tail))))
    case VideoChunk(pts, dur, key, codec, layer, data) =>
      Le64(pts) + (Le32(dur) + (WriteBool(key) + ([codec] + (Le32(layer) + (WriteVec(data) + tail)))))
    case LayerAdd(id, parent, kind, w, h, transform, opacity, content) =>
      Le32(id) + (Le32(parent) + ([KindByte(kind)] + (Le16(w) + (Le16(h)
      + (WriteI32s(transform) + ([opacity] + (WriteContentRef(content) + tail)))))))
    case LayerUpdate(id, mask, transform, opacity, w, h, content, d) =>
      Le32(id) + (Le32(mask)
      + (When(Has(mask, TRANSFORM), WriteI32s(transform))
      + (When(Has(mask, OPACITY), [opacity])
      + (When(Has(mask, SIZE), Le16(w) + Le16(h))
      + (When(Has(mask, CONTENT_REF), WriteContentRef(content))
      + (When(Has(mask, DAMAGE), Le16(d.0) + (Le16(d.1) + (Le16(d.2) + Le16(d.3))))
      + tail))))))
    case LayerRemove(id) => Le32(id) + tail
    case SceneCommit(version) => Le64(version) + tail
    case CreateTab(id, url) => Le32(id) + (WriteVec(url) + tail)
    case CloseTab(id) => Le32(id) + tail
    case SwitchTab(id) => Le32(id) + tail
    case TabCreated(id, title, url) => Le32(id) + (WriteVec(title) + (WriteVec(url) + tail))
    case TabClosed(id) => Le32(id) + tail
    case TabActivated(id) => Le32(id) + tail
    case TabTitle(id, title) => Le32(id) + (WriteVec(title) + tail)
    case TabUrl(id, url) => Le32(id) + (WriteVec(url) + tail)
    case ClearData(a, b, c) => WriteBool(a) + (WriteBool(b) + (WriteBool(c) + tail))
    case AuthChallenge(nonce) => nonce + tail
    case AuthResponse(token) => token + tail
    case AuthSuccess(node) => WriteVec(node) + tail
  }

  predicate HasPixels(m: Message) {
    m.RawFrame? || m.Subframe? || m.TileData?
  }

  /** `p` is a payload that encoding `m` may produce: compressors are free in how they pack pixels. */
  ghost predicate IsPayload(m: Message, p: seq<byte>) {
    if HasPixels(m)
    then exists px :: PixelPayload.WritesPixels(m.compression, m.w, m.h, m.pixels, px) && p == Payload(m, px)
    else p == Payload(m, [])
  }

  // ─── Field readers ───────────────────────────────────────────────────────

  function ReadVec(p: seq<byte>): Read<seq<byte>> {
    var (n, p) :- ReadVarintSpec(p);
    ReadBytes(p, n, LengthOverflow)
  }

  function ReadStr(p: seq<byte>): Read<Str> {
    var (s, p) :- ReadVec(p);
    if ValidUtf8(s) then Ok((s, p)) else Err(InvalidUtf8)
  }

  function ReadBool(p: seq<byte>): Read<bool> {
    var (b, p) :- ReadU8(p);
    Ok((b != 0, p))
  }

  function ReadHash(p: seq<byte>): Read<Hash32> {
    ReadBytes(p, 32, UnexpectedEof)
  }

  function ReadI32s(p: seq<byte>, n: nat): (r: Read<seq<i32>>)
    ensures r.Ok? ==> |r.value.0| == n
  {
    if n == 0 then Ok(([], p))
    else
      var (v, p) :- ReadI32(p);
      var (vs, p) :- ReadI32s(p, n - 1);
      Ok(([v] + vs, p))
  }

  function ReadTransform(p: seq<byte>): Read<Transform> {
    ReadI32s(p, 6)
  }

  function ReadPhase(p: seq<byte>): Read<ScrollPhase> {
    var (b, p) :- ReadU8(p);
    match b
    case 1 => Ok((Begin, p)) case 2 => Ok((Update, p)) case 3 => Ok((End, p)) case 4 => Ok((Momentum, p))
    case _ => Err(InvalidValue)
  }

  function ReadKind(p: seq<byte>): Read<LayerKind> {
    var (b, p) :- ReadU8(p);
    match b
    case 0 => Ok((Solid, p)) case 1 => Ok((Video, p)) case 2 => Ok((Tile, p)) case 3 => Ok((Vector, p))
    case _ => Err(InvalidValue)
  }

  function ReadShape(p: seq<byte>): Read<CursorShape> {
    var (b, p) :- ReadU8(p);
    match b
    case 0 => Ok((Default, p)) case 1 => Ok((Pointer, p)) case 2 => Ok((Text, p)) case 3 => Ok((Progress, p))
    case 4 => Ok((Wait, p)) case 5 => Ok((Crosshair, p)) case 6 => Ok((Move, p)) case 7 => Ok((NotAllowed, p))
    case 8 => Ok((Grab, p)) case 9 => Ok((Grabbing, p)) case 10 => Ok((ResizeEw, p)) case 11 => Ok((ResizeNs, p))
    case 12 => Ok((ResizeNesw, p)) case 13 => Ok((ResizeNwse, p)) case 255 => Ok((Custom, p))
    case _ => Err(InvalidValue)
  }

  function ReadContentRef(p: seq<byte>): Read<ContentRef> {
    var (kind, p) :- ReadU8(p);
    match kind
    case 0 => Ok((NoContent, p))
    case 1 => var (rgba, p) :- ReadU32(p); Ok((SolidColor(rgba), p))
    case 2 => var (t, p) :- ReadU64(p); Ok((TrackId(t), p))
    case 3 => var (h, p) :- ReadHash(p); Ok((AssetHash(h), p))
    case _ => Err(InvalidValue)
  }

  function ReadDrawCmd(p: seq<byte>): Read<DrawCommand> {
    var (kind, p) :- ReadU8(p);
    if kind == 6 then Ok((ClearClip, p))
    else if kind == 0 || kind > 6 then Err(InvalidValue)
    else
      var (x, p) :- ReadI32(p);
      var (y, p) :- ReadI32(p);
      if kind == 3 then
        var (size, p) :- ReadU16(p);
        var (rgba, p) :- ReadU32(p);
        var (text, p) :- ReadStr(p);
        Ok((DrawText(x, y, size, rgba, text), p))
      else
        var (w, p) :- ReadU32(p);
        var (h, p) :- ReadU32(p);
        match kind
        case 1 => var (rgba, p) :- ReadU32(p); Ok((FillRect(x, y, w, h, rgba), p))
        case 2 =>
          var (rgba, p) :- ReadU32(p);
          var (lw, p) :- ReadU16(p);
          Ok((StrokeRect(x, y, w, h, rgba, lw), p))
        case 4 => var (asset, p) :- ReadHash(p); Ok((DrawImage(x, y, w, h, asset), p))
        case _ => Ok((SetClip(x, y, w, h), p))
  }

  function Prepend(cs: seq<DrawCommand>, r: Read<seq<DrawCommand>>): Read<seq<DrawCommand>> {
    if r.Err? then r else Ok((cs + r.value.0, r.value.1))
  }

  function ReadDrawCmds(p: seq<byte>, n: nat): Read<seq<DrawCommand>>
    decreases n
  {
    if n == 0 then Ok(([], p))
    else
      hide ReadDrawCmd;
      var (c, p) :- ReadDrawCmd(p);
      Prepend([c], ReadDrawCmds(p, n - 1))
  }

  lemma PrependNil(r: Read<seq<DrawCommand>>)
    ensures Prepend([], r) == r
  {
    if r.Ok? {
      assert [] + r.value.0 == r.value.0;
    }
  }

  lemma PrependOne(cs: seq<DrawCommand>, c: DrawCommand, r: Read<seq<DrawCommand>>)
    ensures Prepend(cs, Prepend([c], r)) == Prepend(cs + [c], r)
  {
    if r.Ok? {
      assert cs + ([c] + r.value.0) == (cs + [c]) + r.value.0;
    }
  }

  /** The counted loop of the program. */
  method ReadDrawCmdsLoop(p0: seq<byte>, n: nat) returns (r: Read<seq<DrawCommand>>)
    ensures r == ReadDrawCmds(p0, n)
  {
    hide ReadDrawCmd;
    var p := p0;
    var cs: seq<DrawCommand> := [];
    PrependNil(ReadDrawCmds(p, n));
    for i := 0 to n
      invariant ReadDrawCmds(p0, n) == Prepend(cs, ReadDrawCmds(p, n - i))
    {
      var c := ReadDrawCmd(p);
      if c.Err? {
        return Err(c.error);
      }
      PrependOne(cs, c.value.0, ReadDrawCmds(c.value.1, n - i - 1));
      cs := cs + [c.value.0];
      p := c.value.1;
    }
    assert cs + [] == cs;
    return Ok((cs, p));
  }

  // ─── Payload readers, by family of tags ──────────────────────────────────

  function ReadSession(tag: u32, p: seq<byte>): Read<Message> {
    match tag
    case 0x01 =>
      var (v, p) :- ReadU32(p);
      var (w, p) :- ReadU16(p);
      var (h, p) :- ReadU16(p);
      var (dpr, p) :- ReadU16(p);
      var (cap, p) :- ReadU32(p);
      var (name, p) :- ReadStr(p);
      Ok((Hello(v, w, h, dpr, name, cap), p))
    case 0x02 =>
      var (v, p) :- ReadU32(p);
      var (session, p) :- ReadU64(p);
      var (features, p) :- ReadU32(p);
      var (cursor, p) :- ReadU32(p);
      var (url, p) :- ReadStr(p);
      Ok((Welcome(v, session, features, cursor, url), p))
    case 0x03 =>
      var (w, p) :- ReadU16(p);
      var (h, p) :- ReadU16(p);
      var (dpr, p) :- ReadU16(p);
      Ok((Resize(w, h, dpr), p))
    case 0x04 => var (url, p) :- ReadStr(p); Ok((Nav(url), p))
    case 0x05 => var (ts, p) :- ReadU64(p); Ok((Heartbeat(ts), p))
    case 0x06 => var (a, p) :- ReadU8(p); Ok((NavAction(a), p))
    case 0x07 => Ok((Stop, p))
    case 0x80 =>
      var (a, p) :- ReadBool(p);
      var (b, p) :- ReadBool(p);
      var (c, p) :- ReadBool(p);
      Ok((ClearData(a, b, c), p))
    case 0x90 => var (n, p) :- ReadHash(p); Ok((AuthChallenge(n), p))
    case 0x91 => var (t, p) :- ReadHash(p); Ok((AuthResponse(t), p))
    case 0x92 => var (n, p) :- ReadStr(p); Ok((AuthSuccess(n), p))
    case _ => Err(UnknownTag(tag))
  }

  function ReadInput(tag: u32, p: seq<byte>): Read<Message> {
    match tag
    case 0x10 =>
      var (ts, p) :- ReadU64(p);
      var (x, p) :- ReadI32(p);
      var (y, p) :- ReadI32(p);
      var (mods, p) :- ReadU32(p);
      Ok((InputPointer(ts, x, y, mods), p))
    case 0x11 =>
      var (ts, p) :- ReadU64(p);
      var (key, p) :- ReadU32(p);
      var (mods, p) :- ReadU32(p);
      var (down, p) :- ReadBool(p);
      Ok((InputKey(ts, key, mods, down), p))
    case 0x12 =>
      var (ts, p) :- ReadU64(p);
      var (layer, p) :- ReadU32(p);
      var (dx, p) :- ReadI32(p);
      var (dy, p) :- ReadI32(p);
      var (phase, p) :- ReadPhase(p);
      Ok((InputScroll(ts, layer, dx, dy, phase), p))
    case 0x13 =>
      var (ts, p) :- ReadU64(p);
      var (x, p) :- ReadI32(p);
      var (y, p) :- ReadI32(p);
      var (button, p) :- ReadU32(p);
      var (pressed, p) :- ReadBool(p);
      var (mods, p) :- ReadU32(p);
      Ok((InputButton(ts, x, y, button, pressed, mods), p))
    case 0x14 => var (level, p) :- ReadU32(p); Ok((SetZoom(level), p))
    case 0x30 =>
      var (shape, p) :- ReadShape(p);
      var (x, p) :- ReadU16(p);
      var (y, p) :- ReadU16(p);
      var (image, p) :- ReadU64(p);
      Ok((CursorState(shape, x, y, image), p))
    case 0x31 => var (state, p) :- ReadU8(p); Ok((LoadState(state), p))
    case 0x32 => var (title, p) :- ReadStr(p); Ok((Title(title), p))
    case 0x33 => var (url, p) :- ReadStr(p); Ok((UrlChanged(url), p))
    case _ => Err(UnknownTag(tag))
  }

  /** The uncompressed size a pixel message announces. */
  function PixelBytes(stride: u32, h: u16): nat {
    stride * h
  }

  /** The pixel reader takes everything that is left. */
  function ReadFrame(tag: u32, p: seq<byte>): Read<Message> {
    match tag
    case 0x40 =>
      var (ts, p) :- ReadU64(p);
      var (w, p) :- ReadU16(p);
      var (h, p) :- ReadU16(p);
      var (stride, p) :- ReadU32(p);
      var (format, p) :- ReadU32(p);
      var (comp, p) :- ReadU8(p);
      var pixels :- PixelPayload.ReadPixels(p, comp, w, h, PixelBytes(stride, h));
      Ok((RawFrame(ts, w, h, stride, format, comp, pixels), []))
    case 0x41 =>
      var (ts, p) :- ReadU64(p);
      var (x, p) :- ReadU16(p);
      var (y, p) :- ReadU16(p);
      var (w, p) :- ReadU16(p);
      var (h, p) :- ReadU16(p);
      var (stride, p) :- ReadU32(p);
      var (format, p) :- ReadU32(p);
      var (comp, p) :- ReadU8(p);
      var pixels :- PixelPayload.ReadPixels(p, comp, w, h, PixelBytes(stride, h));
      Ok((Subframe(ts, x, y, w, h, stride, format, comp, pixels), []))
    case 0x42 =>
      var (hash, p) :- ReadU64(p);
      var (w, p) :- ReadU16(p);
      var (h, p) :- ReadU16(p);
      var (stride, p) :- ReadU32(p);
      var (format, p) :- ReadU32(p);
      var (comp, p) :- ReadU8(p);
      var pixels :- PixelPayload.ReadPixels(p, comp, w, h, PixelBytes(stride, h));
      Ok((TileData(hash, w, h, stride, format, comp, pixels), []))
    case _ => Err(UnknownTag(tag))
  }

  function ReadMedia(tag: u32, p: seq<byte>): Read<Message> {
    match tag
    case 0x43 =>
      var (ts, p) :- ReadU64(p);
      var (x, p) :- ReadU16(p);
      var (y, p) :- ReadU16(p);
      var (w, p) :- ReadU16(p);
      var (h, p) :- ReadU16(p);
      var (hash, p) :- ReadU64(p);
      Ok((TileRef(ts, x, y, w, h, hash), p))
    case 0x48 =>
      var (pts, p) :- ReadU64(p);
      var (codec, p) :- ReadU8(p);
      var (channels, p) :- ReadU8(p);
      var (rate, p) :- ReadU32(p);
      var (data, p) :- ReadVec(p);
      Ok((AudioFrame(pts, codec, channels, rate, data), p))
    case 0x49 =>
      var (pts, p) :- ReadU64(p);
      var (dur, p) :- ReadU32(p);
      var (key, p) :- ReadBool(p);
      var (codec, p) :- ReadU8(p);
      var (layer, p) :- ReadU32(p);
      var (data, p) :- ReadVec(p);
      Ok((VideoChunk(pts, dur, key, codec, layer, data), p))
    case 0x50 =>
      var (asset, p) :- ReadHash(p);
      var (kind, p) :- ReadU8(p);
      var (data, p) :- ReadVec(p);
      Ok((AssetRegister(asset, kind, data), p))
    case 0x51 =>
      var (ts, p) :- ReadU64(p);
      var (layer, p) :- ReadU32(p);
      var (n, p) :- ReadVarintSpec(p);
      var (commands, p) :- ReadDrawCmds(p, n);
      Ok((DrawCommands(ts, layer, commands), p))
    case _ => Err(UnknownTag(tag))
  }

  /** The field just read, or its default (and nothing consumed) when it is absent. */
  function Unless<T>(absent: bool, default: T, field: Read<T>, p: seq<byte>): Read<T> {
    if absent then Ok((default, p)) else field
  }

  function ReadPair(p: seq<byte>): Read<(u16, u16)> {
    var (a, p) :- ReadU16(p);
    var (b, p) :- ReadU16(p);
    Ok(((a, b), p))
  }

  function ReadQuad(p: seq<byte>): Read<(u16, u16, u16, u16)> {
    var (a, p) :- ReadPair(p);
    var (b, p) :- ReadPair(p);
    Ok(((a.0, a.1, b.0, b.1), p))
  }

  function ReadScene(tag: u32, p: seq<byte>): Read<Message> {
    match tag
    case 0x60 =>
      var (id, p) :- ReadU32(p);
      var (parent, p) :- ReadU32(p);
      var (kind, p) :- ReadKind(p);
      var (w, p) :- ReadU16(p);
      var (h, p) :- ReadU16(p);
      var (transform, p) :- ReadTransform(p);
      var (opacity, p) :- ReadU8(p);
      var (content, p) :- ReadContentRef(p);
      Ok((LayerAdd(id, parent, kind, w, h, transform, opacity, content), p))
    case 0x61 =>
      var (id, p) :- ReadU32(p);
      var (mask, p) :- ReadU32(p);
      var (transform, p) :- Unless(!Has(mask, TRANSFORM), TRANSFORM_IDENTITY, ReadTransform(p), p);
      var (opacity, p) :- Unless(!Has(mask, OPACITY), 255, ReadU8(p), p);
      var (size, p) :- Unless(!Has(mask, SIZE), (0, 0), ReadPair(p), p);
      var (content, p) :- Unless(!Has(mask, CONTENT_REF), NoContent, ReadContentRef(p), p);
      var (damage, p) :- Unless(!Has(mask, DAMAGE), (0, 0, 0, 0), ReadQuad(p), p);
      Ok((LayerUpdate(id, mask, transform, opacity, size.0, size.1, content, damage), p))
    case 0x62 => var (id, p) :- ReadU32(p); Ok((LayerRemove(id), p))
    case 0x63 => var (version, p) :- ReadU64(p); Ok((SceneCommit(version), p))
    case _ => Err(UnknownTag(tag))
  }

  function ReadTab(tag: u32, p: seq<byte>): Read<Message> {
    if !(0x70 <= tag <= 0x77) then Err(UnknownTag(tag))
    else
      var (id, p) :- ReadU32(p);
      match tag
      case 0x70 => var (url, p) :- ReadStr(p); Ok((CreateTab(id, url), p))
      case 0x71 => Ok((CloseTab(id), p))
      case 0x72 => Ok((SwitchTab(id), p))
      case 0x73 =>
        var (title, p) :- ReadStr(p);
        var (url, p) :- ReadStr(p);
        Ok((TabCreated(id, title, url), p))
      case 0x74 => Ok((TabClosed(id), p))
      case 0x75 => Ok((TabActivated(id), p))
      case 0x76 => var (title, p) :- ReadStr(p); Ok((TabTitle(id, title), p))
      case _ => var (url, p) :- ReadStr(p); Ok((TabUrl(id, url), p))
  }

  function ReadFields(tag: u32, p: seq<byte>): Read<Message> {
    if tag < 0x10 || tag >= 0x80 then ReadSession(tag, p)
    else if tag < 0x40 then ReadInput(tag, p)
    else if tag < 0x43 then ReadFrame(tag, p)
    else if tag < 0x60 then ReadMedia(tag, p)
    else if tag < 0x70 then ReadScene(tag, p)
    else ReadTab(tag, p)
  }

  /** One payload, all of it: unknown tags and left-over bytes are refused. */
  function DecodePayload(tag: u32, payload: seq<byte>): Result<Message> {
    var (m, rest) :- ReadFields(tag, payload);
    if rest != [] then Err(TrailingBytes) else Ok(m)
  }

  /** What a receiver gets for `m`: fields a LayerUpdate masks out take their defaults, half-resolution
      pixels come back as their reconstruction, everything else is `m` itself. */
  function Received(m: Message): Message {
    match m
    case LayerUpdate(id, mask, transform, opacity, w, h, content, damage) =>
      LayerUpdate(id, mask,
                  if Has(mask, TRANSFORM) then transform else TRANSFORM_IDENTITY,
                  if Has(mask, OPACITY) then opacity else 255,
                  if Has(mask, SIZE) then w else 0,
                  if Has(mask, SIZE) then h else 0,
                  if Has(mask, CONTENT_REF) then content else NoContent,
                  if Has(mask, DAMAGE) then damage else (0, 0, 0, 0))
    case RawFrame(ts, w, h, stride, format, comp, pixels) =>
      RawFrame(ts, w, h, stride, format, comp, PixelPayload.Shown(comp, w, h, pixels))
    case Subframe(ts, x, y, w, h, stride, format, comp, pixels) =>
      Subframe(ts, x, y, w, h, stride, format, comp, PixelPayload.Shown(comp, w, h, pixels))
    case TileData(hash, w, h, stride, format, comp, pixels) =>
      TileData(hash, w, h, stride, format, comp, PixelPayload.Shown(comp, w, h, pixels))
    case _ => m
  }

  /** A message a sender may encode: its pixels have the length its geometry announces. */
  predicate Sendable(m: Message) {
    HasPixels(m) ==> PixelPayload.Sendable(m.compression, m.w, m.h, m.pixels, PixelBytes(m.stride, m.h))
  }
}
