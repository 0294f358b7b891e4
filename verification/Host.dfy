/** The host: last frames per tab, the frame loop, tab operations, and the messages they publish. */
module Host {
  import opened Bytes
  import opened Wire
  import Diff
  import PixelPayload
  import opened Screen

  /** A frame as the web engine delivers it. */
  datatype FrameData = FrameData(tabId: u32, width: u16, height: u16, stride: u32, format: u32, pixels: seq<byte>) {
    predicate Valid() {
      0 < width && 0 < height && stride >= 4 * width && |pixels| == stride * height
    }

    predicate SameGeometry(other: FrameData) {
      width == other.width && height == other.height && stride == other.stride
    }
  }

  type HostFrame = f: FrameData | f.Valid() witness FrameData(0, 1, 1, 4, 0, [0, 0, 0, 0])

  datatype TabEntry = TabEntry(url: Str, title: Str)

  datatype LoadEvent = Started | Redirected | Committed | Finished | Unknown

  datatype Host = Host(last: map<u32, HostFrame>, tabs: map<u32, TabEntry>, active: u32, forceFull: set<u32>)

  // ─── Messages the host publishes ─────────────────────────────────────────

  function FullFrame(ts: u64, f: FrameData): Message {
    RawFrame(ts, f.width, f.height, f.stride, f.format, PixelPayload.ZSTD, f.pixels)
  }

  /** Large regions go out at half resolution, middle ones as plain LZ4, small ones filtered. */
  function CompressionFor(area: nat): byte {
    if area >= 96_000 then PixelPayload.LZ4_DELTA_Q2
    else if area >= 32_000 then PixelPayload.ZSTD
    else PixelPayload.ZSTD_DELTA
  }

  /** The subframe for region `r` of `f`. */
  ghost predicate IsSubMessage(ts: u64, f: FrameData, r: Diff.Rect, m: Message) {
    && m.Subframe?
    && m.x == r.x && m.y == r.y && m.w == r.w && m.h == r.h && m.stride == 4 * r.w
    && m.tsUs == ts && m.format == f.format && m.compression == CompressionFor(r.w * r.h)
    && Diff.IsSubRect(m.pixels, f.pixels, f.stride, r)
  }

  ghost predicate AreSubMessages(ts: u64, f: FrameData, regions: seq<Diff.Rect>, msgs: seq<Message>) {
    |msgs| == |regions| && forall i :: 0 <= i < |msgs| ==> IsSubMessage(ts, f, regions[i], msgs[i])
  }

  /** Four fifths of the picture, or more than sixteen pieces: send the whole frame instead. */
  predicate TooMuch(regions: seq<Diff.Rect>, f: FrameData) {
    Diff.Area(regions) * 10 >= f.width * f.height * 8 || |regions| > 16
  }

  ghost predicate AreRegionsOf(prev: FrameData, f: FrameData, regions: seq<Diff.Rect>) {
    Diff.IsDiff(prev.pixels, f.pixels, f.width, f.height, f.stride, regions)
  }

  lemma SameRegions(prev: FrameData, f: FrameData, p: seq<Diff.Rect>, q: seq<Diff.Rect>)
    requires AreRegionsOf(prev, f, p) && AreRegionsOf(prev, f, q)
    ensures p == q
  {
    hide Diff.IsDiff;
    Diff.RegionsUnique(prev.pixels, f.pixels, f.width, f.height, f.stride, p, q);
  }

  /** What is published for a new frame of the active tab over `prev`, the one before, of equal geometry. */
  ghost predicate IsUpdate(ts: u64, prev: FrameData, f: FrameData, msgs: seq<Message>) {
    exists regions ::
      && AreRegionsOf(prev, f, regions)
      && if regions == [] then msgs == []
         else if TooMuch(regions, f) then msgs == [FullFrame(ts, f)]
         else AreSubMessages(ts, f, regions, msgs)
  }

  // ─── Steps, as relations between states and the messages published ───────

  ghost predicate FrameStep(h: Host, f: HostFrame, ts: u64, h': Host, msgs: seq<Message>) {
    if f.tabId != h.active then h' == h.(last := h.last[f.tabId := f]) && msgs == []
    else
      var full := f.tabId in h.forceFull || f.tabId !in h.last || !h.last[f.tabId].SameGeometry(f);
      && h' == h.(last := h.last[f.tabId := f], forceFull := h.forceFull - {f.tabId})
      && if full then msgs == [FullFrame(ts, f)] else IsUpdate(ts, h.last[f.tabId], f, msgs)
  }

  function SwitchMsgs(h: Host, id: u32, ts: u64): seq<Message> {
    if id !in h.tabs then []
    else
      (if id in h.last then [FullFrame(ts, h.last[id])] else [])
      + [Title(h.tabs[id].title), UrlChanged(h.tabs[id].url), Message.TabActivated(id)]
  }

  function Switched(h: Host, id: u32): Host {
    h.(active := id)
  }

  function Created(h: Host, id: u32, url: Str, title: Str): Host {
    h.(tabs := h.tabs[id := TabEntry(url, title)])
  }

  function Closed(h: Host, id: u32): Host {
    h.(tabs := h.tabs - {id}, last := h.last - {id})
  }

  function LoadByte(e: LoadEvent): byte {
    match e case Started => 0 case Redirected => 1 case Committed => 2 case Finished => 3 case Unknown => 255
  }

  function Loaded(h: Host, id: u32, e: LoadEvent): Host {
    if e.Started? || e.Committed? then h.(forceFull := h.forceFull + {id}) else h
  }

  function Titled(h: Host, id: u32, title: Str): Host {
    if id in h.tabs then h.(tabs := h.tabs[id := h.tabs[id].(title := title)]) else h
  }

  function Navigated(h: Host, id: u32, url: Str): Host {
    var h1 := h.(forceFull := h.forceFull + {id});
    if id in h.tabs then h1.(tabs := h.tabs[id := h.tabs[id].(url := url)]) else h1
  }

  function OnlyIf(c: bool, m: Message): seq<Message> {
    if c then [m] else []
  }

  /** Everything the host can do, one event at a time. Tabs are switched only to open tabs. */
  datatype Action =
    | NewFrame(f: HostFrame)
    | SwitchTo(id: u32)
    | CreateTab(id: u32, url: Str)
    | CloseTab(id: u32)
    | LoadChanged(id: u32, load: LoadEvent)
    | TitleChanged(id: u32, title: Str)
    | UrlChange(id: u32, url: Str)
    | CursorChanged(id: u32, shape: CursorShape)
    | AudioCaptured(pts: u64, data: seq<byte>)

  const NEW_TAB: Str := [0x4E, 0x65, 0x77, 0x20, 0x54, 0x61, 0x62] // "New Tab"

  ghost predicate Step(h: Host, a: Action, ts: u64, h': Host, msgs: seq<Message>) {
    match a
    case NewFrame(f) => FrameStep(h, f, ts, h', msgs)
    case SwitchTo(id) => id in h.tabs && h' == Switched(h, id) && msgs == SwitchMsgs(h, id, ts)
    case CreateTab(id, url) =>
      var h1 := Created(h, id, url, NEW_TAB);
      h' == Switched(h1, id) && msgs == SwitchMsgs(h1, id, ts)
    case CloseTab(id) => h' == Closed(h, id) && msgs == []
    case LoadChanged(id, e) => h' == Loaded(h, id, e) && msgs == OnlyIf(h.active == id, LoadState(LoadByte(e)))
    case TitleChanged(id, title) =>
      h' == Titled(h, id, title) && msgs == [TabTitle(id, title)] + OnlyIf(h.active == id, Title(title))
    case UrlChange(id, url) =>
      h' == Navigated(h, id, url) && msgs == [TabUrl(id, url)] + OnlyIf(h.active == id, UrlChanged(url))
    case CursorChanged(id, shape) => h' == h && msgs == OnlyIf(h.active == id, CursorState(shape, 0, 0, 0))
    case AudioCaptured(pts, data) => h' == h && msgs == [AudioFrame(pts, 0, 2, 48_000, data)]
  }

  // ─── What each step publishes, and the state it leads to ─────────────────

  /** `f` can be sent as a difference: nothing forces a full frame, and the tab's last frame has the same size. */
  predicate IsDelta(h: Host, f: HostFrame) {
    && f.tabId == h.active && f.tabId !in h.forceFull && f.tabId in h.last
    && var prev := h.last[f.tabId];
       prev.width == f.width && prev.height == f.height && prev.stride == f.stride
  }

  /** A frame of another tab publishes nothing; one of the active tab that is no difference goes out whole. */
  lemma FrameEffects(h: Host, f: HostFrame, ts: u64, h': Host, msgs: seq<Message>)
    requires Step(h, NewFrame(f), ts, h', msgs)
    ensures h'.last == h.last[f.tabId := f] && h'.tabs == h.tabs && h'.active == h.active
    ensures h'.forceFull == if f.tabId == h.active then h.forceFull - {h.active} else h.forceFull
    ensures f.tabId != h.active ==> msgs == []
    ensures f.tabId == h.active && !IsDelta(h, f) ==>
              msgs == [RawFrame(ts, f.width, f.height, f.stride, f.format, 1, f.pixels)]
  {
    hide IsUpdate;
  }

  lemma TooMuchIff(regions: seq<Diff.Rect>, f: FrameData)
    ensures TooMuch(regions, f) <==> |regions| > 16 || Diff.Area(regions) * 10 >= 8 * (f.width * f.height)
  {
    hide Diff.Area;
  }

  /** A difference goes out region by region, compressed by size, unless there are more than sixteen regions or they
      add up to four fifths of the picture: then the frame goes out whole. */
  lemma UpdateShape(h: Host, f: HostFrame, ts: u64, h': Host, msgs: seq<Message>, regions: seq<Diff.Rect>)
    requires Step(h, NewFrame(f), ts, h', msgs) && IsDelta(h, f) && AreRegionsOf(h.last[f.tabId], f, regions)
    ensures regions == [] ==> msgs == []
    ensures 0 < |regions| <= 16 && Diff.Area(regions) * 10 < 8 * (f.width * f.height) ==>
              |msgs| == |regions| && forall i :: 0 <= i < |msgs| ==>
                var m, r := msgs[i], regions[i];
                && m.Subframe? && m.x == r.x && m.y == r.y && m.w == r.w && m.h == r.h && m.stride == 4 * r.w
                && m.tsUs == ts && m.format == f.format && Diff.IsSubRect(m.pixels, f.pixels, f.stride, r)
                && m.compression == if r.w * r.h >= 96_000 then 3 else if r.w * r.h >= 32_000 then 1 else 2
    ensures regions != [] && (|regions| > 16 || Diff.Area(regions) * 10 >= 8 * (f.width * f.height)) ==>
              msgs == [RawFrame(ts, f.width, f.height, f.stride, f.format, 1, f.pixels)]
  {
    hide AreRegionsOf, Diff.IsSubRect, Diff.Area, TooMuch;
    TooMuchIff(regions, f);
    var prev := h.last[f.tabId];
    var regions' :|
      && AreRegionsOf(prev, f, regions')
      && if regions' == [] then msgs == []
         else if TooMuch(regions', f) then msgs == [FullFrame(ts, f)]
         else AreSubMessages(ts, f, regions', msgs);
    SameRegions(prev, f, regions, regions');
  }

  ghost predicate OnlyPixelChanged(prev: HostFrame, f: HostFrame, px: nat, py: nat) {
    forall x, y :: 0 <= x < f.width && 0 <= y < f.height ==>
      (Diff.Differs(prev.pixels, f.pixels, f.stride, x, y) <==> x == px && y == py)
  }

  lemma FrameSize(f: HostFrame)
    ensures |f.pixels| == f.height * f.stride
  {
  }

  /** `msgs` introduces the active tab: its stored frame whole, if there is one, its title, its address, its number. */
  predicate Introduces(ts: u64, h: Host, msgs: seq<Message>) {
    h.active in h.tabs &&
    var tab := [Title(h.tabs[h.active].title), UrlChanged(h.tabs[h.active].url), Message.TabActivated(h.active)];
    if h.active !in h.last then msgs == tab
    else
      var f := h.last[h.active];
      msgs == [RawFrame(ts, f.width, f.height, f.stride, f.format, 1, f.pixels)] + tab
  }

  /** `m` is pixel (px, py) of `f` and nothing else. */
  predicate SendsPixel(ts: u64, f: HostFrame, px: nat, py: nat, m: Message) {
    && m.Subframe? && m.x == px && m.y == py && m.w == 1 && m.h == 1 && m.stride == 4
    && m.tsUs == ts && m.format == f.format && m.compression == 2
    && var o := py * f.stride + 4 * px;
       o + 4 <= |f.pixels| && m.pixels == f.pixels[o..o + 4]
  }

  lemma OnePixel(f: HostFrame, sub: seq<byte>, px: nat, py: nat)
    requires px < f.width && py < f.height && Diff.IsSubRect(sub, f.pixels, f.stride, Diff.Rect(px, py, 1, 1))
    ensures py * f.stride + 4 * px + 4 <= |f.pixels|
    ensures sub == f.pixels[py * f.stride + 4 * px..py * f.stride + 4 * px + 4]
  {
    Diff.RowInside(f.width, f.height, f.stride, py);
    FrameSize(f);
    assert PixelAt(sub, 4, 0, 0) == PixelAt(f.pixels, f.stride, px, py);
  }

  lemma OnePixelRegions(prev: HostFrame, f: HostFrame, px: nat, py: nat, regions: seq<Diff.Rect>)
    requires OnlyPixelChanged(prev, f, px, py) && px < f.width && py < f.height && AreRegionsOf(prev, f, regions)
    ensures regions == [Diff.Rect(px, py, 1, 1)] && Diff.Area(regions) == 1
  {
    hide Diff.Differs, Diff.AreRegions, Diff.Grouped, Diff.IsDirty;
    Diff.OnePixelRegion(prev.pixels, f.pixels, f.width, f.height, f.stride, regions, px, py);
    Diff.AreaAdds([], Diff.Rect(px, py, 1, 1));
    assert [] + regions == regions;
  }

  /** When a single visible pixel has changed, that pixel alone is sent, unless the frame has no other. */
  lemma OnePixelUpdate(h: Host, f: HostFrame, ts: u64, h': Host, msgs: seq<Message>, px: nat, py: nat)
    requires Step(h, NewFrame(f), ts, h', msgs) && IsDelta(h, f)
    requires px < f.width && py < f.height && OnlyPixelChanged(h.last[f.tabId], f, px, py)
    ensures f.width * f.height >= 2 ==> |msgs| == 1 && SendsPixel(ts, f, px, py, msgs[0])
    ensures f.width * f.height == 1 ==> msgs == [RawFrame(ts, f.width, f.height, f.stride, f.format, 1, f.pixels)]
  {
    hide AreRegionsOf, AreSubMessages, OnlyPixelChanged, Diff.IsSubRect, Diff.Area, TooMuch;
    var regions :| AreRegionsOf(h.last[f.tabId], f, regions);
    OnePixelRegions(h.last[f.tabId], f, px, py, regions);
    UpdateShape(h, f, ts, h', msgs, regions);
    if f.width * f.height >= 2 {
      OnePixel(f, msgs[0].pixels, px, py);
    }
  }

  /** Opening, switching and closing tabs, in full. */
  lemma TabEffects(h: Host, a: Action, ts: u64, h': Host, msgs: seq<Message>)
    requires Step(h, a, ts, h', msgs)
    ensures match a
            case SwitchTo(id) =>
              && id in h.tabs && h' == Host(h.last, h.tabs, id, h.forceFull)
              && Introduces(ts, h', msgs)
            case CreateTab(id, url) =>
              && h' == Host(h.last, h.tabs[id := TabEntry(url, [0x4E, 0x65, 0x77, 0x20, 0x54, 0x61, 0x62])], id,
                            h.forceFull)
              && Introduces(ts, h', msgs)
            case CloseTab(id) => h' == Host(h.last - {id}, h.tabs - {id}, h.active, h.forceFull) && msgs == []
            case _ => true
  {
    hide FrameStep, Loaded, Titled, Navigated, OnlyIf;
  }

  /** What the web engine reports besides frames, in full; all of it is published for the active tab, titles and
      addresses for the others too. */
  lemma NewsEffects(h: Host, a: Action, ts: u64, h': Host, msgs: seq<Message>)
    requires Step(h, a, ts, h', msgs)
    ensures match a
            case LoadChanged(id, e) =>
              && h' == h.(forceFull := h.forceFull + if e == Started || e == Committed then {id} else {})
              && (id != h.active ==> msgs == [])
              && (id == h.active ==>
                    exists b :: msgs == [LoadState(b)]
                                && ((e == Started && b == 0) || (e == Redirected && b == 1)
                                    || (e == Committed && b == 2) || (e == Finished && b == 3)
                                    || (e == Unknown && b == 255)))
            case TitleChanged(id, title) =>
              && h' == h.(tabs := if id in h.tabs then h.tabs[id := TabEntry(h.tabs[id].url, title)] else h.tabs)
              && msgs == if id == h.active then [TabTitle(id, title), Title(title)] else [TabTitle(id, title)]
            case UrlChange(id, url) =>
              && h' == h.(tabs := if id in h.tabs then h.tabs[id := TabEntry(url, h.tabs[id].title)] else h.tabs,
                          forceFull := h.forceFull + {id})
              && msgs == if id == h.active then [TabUrl(id, url), UrlChanged(url)] else [TabUrl(id, url)]
            case CursorChanged(id, shape) =>
              h' == h && msgs == if id == h.active then [CursorState(shape, 0, 0, 0)] else []
            case AudioCaptured(pts, data) => h' == h && msgs == [AudioFrame(pts, 0, 2, 48_000, data)]
            case _ => true
  {
    hide FrameStep, SwitchMsgs, Created, Switched, Closed;
    match a {
      case LoadChanged(id, e) => assert h.forceFull + {} == h.forceFull;
      case UrlChange(id, url) => assert [TabUrl(id, url)] + [UrlChanged(url)] == [TabUrl(id, url), UrlChanged(url)];
      case TitleChanged(id, title) =>
        assert [TabTitle(id, title)] + [Title(title)] == [TabTitle(id, title), Title(title)];
      case _ =>
    }
  }

  // ─── Host states that arise ──────────────────────────────────────────────

  function Initial(url: Str): Host {
    Host(map[], map[1 := TabEntry(url, NEW_TAB)], 1, {})
  }

  predicate IsInitial(h: Host, url: Str) {
    h == Initial(url)
  }

  ghost predicate Follows(h: Host, h': Host) {
    exists a, ts, msgs :: Step(h, a, ts, h', msgs)
  }

  /** A new host and its steps. */
  ghost predicate IsHistory(hs: seq<Host>) {
    && hs != []
    && (exists url: Str :: IsInitial(hs[0], url))
    && forall i :: 0 <= i < |hs| - 1 ==> Follows(hs[i], hs[i + 1])
  }

  ghost predicate Arises(h: Host) {
    exists hs :: IsHistory(hs) && hs[|hs| - 1] == h
  }

  lemma InitialArises(url: Str)
    ensures Arises(Initial(url))
  {
    assert IsInitial([Initial(url)][0], url);
    assert IsHistory([Initial(url)]);
  }

  lemma StepArises(h: Host, a: Action, ts: u64, h': Host, msgs: seq<Message>)
    requires Arises(h) && Step(h, a, ts, h', msgs)
    ensures Arises(h')
  {
    hide Step, IsInitial;
    var hs :| IsHistory(hs) && hs[|hs| - 1] == h;
    var longer := hs + [h'];
    assert Follows(h, h');
    forall i | 0 <= i < |longer| - 1
      ensures Follows(longer[i], longer[i + 1])
    {
      if i < |hs| - 1 {
        assert Follows(hs[i], hs[i + 1]);
      }
    }
    assert longer[0] == hs[0];
    assert IsHistory(longer);
  }

  // ─── Batches of frames ───────────────────────────────────────────────────

  lemma MoveEntry(m: map<u32, HostFrame>, batch: map<u32, HostFrame>, id: u32)
    requires id in batch
    ensures m[id := batch[id]] + (batch - {id}) == m + batch
  {
  }

  ghost predicate FrameSteps(h: Host, order: seq<HostFrame>, ts: u64, h': Host, msgs: seq<Message>)
    decreases |order|, 1
  {
    if order == [] then h' == h && msgs == []
    else exists h1, m1, m2 :: FrameStepsVia(h, order, ts, h', msgs, h1, m1, m2)
  }

  lemma NoFrameSteps(h: Host, ts: u64)
    ensures FrameSteps(h, [], ts, h, [])
  {
  }

  lemma FrameStepLast(h: Host, f: HostFrame, ts: u64, h': Host, msgs: seq<Message>)
    requires FrameStep(h, f, ts, h', msgs)
    ensures h'.last == h.last[f.tabId := f]
  {
  }

  ghost predicate FrameStepsVia(h: Host, order: seq<HostFrame>, ts: u64, h': Host, msgs: seq<Message>,
                                h1: Host, m1: seq<Message>, m2: seq<Message>)
    requires order != []
    decreases |order|, 0
  {
    && FrameSteps(h, order[..|order| - 1], ts, h1, m1)
    && FrameStep(h1, order[|order| - 1], ts, h', m2)
    && msgs == m1 + m2
  }

  lemma FrameStepsExtend(h: Host, order: seq<HostFrame>, ts: u64, h1: Host, m1: seq<Message>,
                         f: HostFrame, h': Host, m2: seq<Message>)
    requires FrameSteps(h, order, ts, h1, m1) && FrameStep(h1, f, ts, h', m2)
    ensures FrameSteps(h, order + [f], ts, h', m1 + m2)
  {
    hide FrameStep;
    assert (order + [f])[..|order|] == order;
    assert FrameStepsVia(h, order + [f], ts, h', m1 + m2, h1, m1, m2);
  }

  function SnapshotOf(h: Host, ts: u64): Option<Message> {
    if h.active in h.last then Some(FullFrame(ts, h.last[h.active])) else None
  }

  /** The last frame of each tab in a batch. */
  function Newest(frames: seq<HostFrame>): map<u32, HostFrame> {
    if frames == [] then map[]
    else
      var n := |frames| - 1;
      Newest(frames[..n])[frames[n].tabId := frames[n]]
  }

  lemma {:induction false} NewestTab(frames: seq<HostFrame>, id: u32)
    requires id in Newest(frames)
    ensures Newest(frames)[id].tabId == id
  {
    var n := |frames| - 1;
    if frames[n].tabId != id {
      NewestTab(frames[..n], id);
    }
  }

  // ─── The host object ─────────────────────────────────────────────────────

  class HostState {
    var lastFrames: map<u32, HostFrame>
    var tabs: map<u32, TabEntry>
    var activeTabId: u32
    var forceFull: set<u32>
    /** Everything handed to the broadcast channel, in order. */
    var published: seq<Message>

    ghost function State(): Host
      reads this
    {
      Host(lastFrames, tabs, activeTabId, forceFull)
    }

    constructor (initialUrl: Str)
      ensures State() == Initial(initialUrl) && published == []
      ensures lastFrames == map[] && forceFull == {} && activeTabId == 1
      ensures tabs == map[1 := TabEntry(initialUrl, [0x4E, 0x65, 0x77, 0x20, 0x54, 0x61, 0x62])]
    {
      tabs := map[1 := TabEntry(initialUrl, NEW_TAB)];
      lastFrames := map[];
      activeTabId := 1;
      forceFull := {};
      published := [];
    }

    method Publish(m: Message)
      modifies this`published
      ensures published == old(published) + [m]
    {
      published := published + [m];
    }

    static method SubMessages(ghost prev: HostFrame, f: HostFrame, ts: u64, regions: seq<Diff.Rect>)
      returns (msgs: seq<Message>)
      requires AreRegionsOf(prev, f, regions)
      ensures AreSubMessages(ts, f, regions, msgs)
    {
      hide Diff.ColumnBox, Diff.IsSubRect, Diff.RowChanged, Diff.AreRegions, Diff.Grouped, Diff.IsDirty;
      msgs := [];
      for i := 0 to |regions|
        invariant AreSubMessages(ts, f, regions[..i], msgs)
      {
        var r := regions[i];
        Diff.RegionAt(prev.pixels, f.pixels, f.width, f.height, f.stride, regions, i);
        FrameSize(f);
        var sub := Diff.ExtractSubrect(f.pixels, f.width, f.height, f.stride, r);
        var m := Message.Subframe(ts, r.x, r.y, r.w, r.h, r.w * 4, f.format, CompressionFor(r.w * r.h), sub);
        assert regions[..i + 1] == regions[..i] + [r];
        msgs := msgs + [m];
      }
      assert regions[..|regions|] == regions;
    }

    static method Update(prev: HostFrame, f: HostFrame, ts: u64) returns (msgs: seq<Message>)
      requires prev.SameGeometry(f)
      ensures IsUpdate(ts, prev, f, msgs)
    {
      hide Diff.AreRegions, Diff.Grouped, Diff.IsDirty;
      var (w, h, s) := (f.width, f.height, f.stride);
      FrameSize(f);
      FrameSize(prev);
      var regions := Diff.DiffRegions(prev.pixels, f.pixels, w, h, s);
      if regions == [] {
        msgs := [];
      } else if TooMuch(regions, f) {
        msgs := [FullFrame(ts, f)];
      } else {
        msgs := SubMessages(prev, f, ts, regions);
      }
      assert AreRegionsOf(prev, f, regions);
    }

    /** One processed frame. */
    method ProcessFrame(f: HostFrame, ts: u64) returns (ghost sent: seq<Message>)
      modifies this
      ensures published == old(published) + sent
      ensures FrameStep(old(State()), f, ts, State(), sent)
    {
      var id := f.tabId;
      if activeTabId != id {
        lastFrames := lastFrames[id := f];
        return [];
      }
      var mustFull := id in forceFull;
      forceFull := forceFull - {id};
      var prev := if id in lastFrames then Some(lastFrames[id]) else None;
      var sameGeom := !mustFull && prev.Some? && prev.value.SameGeometry(f);
      var msgs: seq<Message>;
      if !sameGeom {
        msgs := [FullFrame(ts, f)];
      } else {
        msgs := Update(prev.value, f, ts);
      }
      lastFrames := lastFrames[id := f];
      published := published + msgs;
      sent := msgs;
    }

    method SwitchTab(id: u32, ts: u64)
      modifies this
      ensures State() == Switched(old(State()), id)
      ensures published == old(published) + SwitchMsgs(old(State()), id, ts)
    {
      activeTabId := id;
      if id in tabs {
        if id in lastFrames {
          Publish(FullFrame(ts, lastFrames[id]));
        }
        Publish(Title(tabs[id].title));
        Publish(UrlChanged(tabs[id].url));
        Publish(Message.TabActivated(id));
      }
    }

    method CreateTab(id: u32, url: Str, makeActive: bool, ts: u64)
      modifies this
      ensures var h1 := Created(old(State()), id, url, NEW_TAB);
              if makeActive then State() == Switched(h1, id) && published == old(published) + SwitchMsgs(h1, id, ts)
              else State() == h1 && published == old(published)
    {
      tabs := tabs[id := TabEntry(url, NEW_TAB)];
      if makeActive {
        SwitchTab(id, ts);
      }
    }

    method CloseTab(id: u32)
      modifies this
      ensures State() == Closed(old(State()), id) && published == old(published)
    {
      tabs := tabs - {id};
      lastFrames := lastFrames - {id};
    }

    method OnLoad(id: u32, e: LoadEvent)
      modifies this
      ensures State() == Loaded(old(State()), id, e)
      ensures published == old(published) + OnlyIf(old(activeTabId) == id, LoadState(LoadByte(e)))
    {
      if e.Started? || e.Committed? {
        forceFull := forceFull + {id};
      }
      if activeTabId == id {
        Publish(LoadState(LoadByte(e)));
      }
    }

    method OnTitle(id: u32, title: Str)
      modifies this
      ensures State() == Titled(old(State()), id, title)
      ensures published == old(published) + ([TabTitle(id, title)] + OnlyIf(old(activeTabId) == id, Title(title)))
    {
      if id in tabs {
        tabs := tabs[id := tabs[id].(title := title)];
      }
      Publish(TabTitle(id, title));
      if activeTabId == id {
        Publish(Title(title));
      }
    }

    method OnUrl(id: u32, url: Str)
      modifies this
      ensures State() == Navigated(old(State()), id, url)
      ensures published == old(published) + ([TabUrl(id, url)] + OnlyIf(old(activeTabId) == id, UrlChanged(url)))
    {
      forceFull := forceFull + {id};
      if id in tabs {
        tabs := tabs[id := tabs[id].(url := url)];
      }
      Publish(TabUrl(id, url));
      if activeTabId == id {
        Publish(UrlChanged(url));
      }
    }

    /** The frame of the active tab, whole, if there is one. */
    method Snapshot(ts: u64) returns (m: Option<Message>)
      ensures m == SnapshotOf(State(), ts)
    {
      if activeTabId in lastFrames {
        return Some(FullFrame(ts, lastFrames[activeTabId]));
      }
      return None;
    }

    /** All frames waiting in the channel at once: only the newest of each tab is processed, in some order. */
    method ProcessBatch(frames: seq<HostFrame>, ts: u64) returns (ghost order: seq<HostFrame>, ghost sent: seq<Message>)
      modifies this
      ensures lastFrames == old(lastFrames) + Newest(frames)
      ensures FrameSteps(old(State()), order, ts, State(), sent) && published == old(published) + sent
    {
      hide FrameStep, FrameSteps, Newest;
      var batch := Newest(frames);
      order, sent := [], [];
      NoFrameSteps(State(), ts);
      forall id | id in batch
        ensures batch[id].tabId == id
      {
        NewestTab(frames, id);
      }
      while batch != map[]
        invariant forall id :: id in batch ==> batch[id].tabId == id
        invariant lastFrames + batch == old(lastFrames) + Newest(frames)
        invariant FrameSteps(old(State()), order, ts, State(), sent)
        invariant published == old(published) + sent
        decreases |batch|
      {
        var id :| id in batch;
        var f := batch[id];
        MoveEntry(lastFrames, batch, id);
        ghost var h0 := State();
        ghost var more := ProcessFrame(f, ts);
        FrameStepLast(h0, f, ts, State(), more);
        FrameStepsExtend(old(State()), order, ts, h0, sent, f, State(), more);
        order, sent := order + [f], sent + more;
        batch := batch - {id};
      }
    }
  }

  /** Of several frames of one tab in a batch, the one that arrived last is kept. */
  lemma {:induction false} NewestIsLast(frames: seq<HostFrame>, i: nat)
    requires i < |frames| && forall j :: i < j < |frames| ==> frames[j].tabId != frames[i].tabId
    ensures frames[i].tabId in Newest(frames) && Newest(frames)[frames[i].tabId] == frames[i]
  {
    var n := |frames| - 1;
    if i < n {
      NewestIsLast(frames[..n], i);
    }
  }
}
