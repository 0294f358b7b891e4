/** A subscriber that is shown every published message shows the active tab's last frame, whatever the host does. */
module Mirror {
  import opened Bytes
  import opened Wire
  import opened Screen
  import opened Host
  import Diff

  /** `ms` shows every visible pixel of `f`. */
  ghost predicate ShowsFrame(ms: seq<Message>, f: FrameData) {
    forall x, y :: 0 <= x < f.width && 0 <= y < f.height ==>
      Shows(ms, x, y) == Some(PixelAt(f.pixels, f.stride, x, y))
  }

  /** `ms` shows the last frame of the active tab, if there is one. */
  ghost predicate Mirrors(ms: seq<Message>, h: Host) {
    h.active in h.last ==> ShowsFrame(ms, h.last[h.active])
  }

  predicate IsQuiet(m: Message) {
    !m.RawFrame? && !m.Subframe?
  }

  lemma {:induction false} QuietShows(ms: seq<Message>, quiet: seq<Message>, x: nat, y: nat)
    requires forall m :: m in quiet ==> IsQuiet(m)
    ensures Shows(ms + quiet, x, y) == Shows(ms, x, y)
  {
    if quiet == [] {
      assert ms + [] == ms;
    } else {
      var n := |quiet| - 1;
      QuietShows(ms, quiet[..n], x, y);
      assert (ms + quiet)[..|ms + quiet| - 1] == ms + quiet[..n];
      assert IsQuiet(quiet[n]);
    }
  }

  lemma QuietMirrors(ms: seq<Message>, quiet: seq<Message>, h: Host)
    requires Mirrors(ms, h) && forall m :: m in quiet ==> IsQuiet(m)
    ensures Mirrors(ms + quiet, h)
  {
    hide Shows, PixelAt;
    forall x, y
      ensures Shows(ms + quiet, x, y) == Shows(ms, x, y)
    {
      QuietShows(ms, quiet, x, y);
    }
  }

  lemma FullEffect(ts: u64, f: HostFrame, x: nat, y: nat)
    ensures Effect(FullFrame(ts, f), x, y)
         == Some(if x < f.width && y < f.height then PixelAt(f.pixels, f.stride, x, y) else Pad)
  {
    hide PixelAt;
  }

  /** A full frame shows itself, whatever was there. */
  lemma FullShows(ms: seq<Message>, ts: u64, f: HostFrame)
    ensures ShowsFrame(ms + [FullFrame(ts, f)], f)
  {
    hide Effect, PixelAt, FullFrame, Shows;
    forall x, y | 0 <= x < f.width && 0 <= y < f.height
      ensures Shows(ms + [FullFrame(ts, f)], x, y) == Some(PixelAt(f.pixels, f.stride, x, y))
    {
      ShowsConcat(ms, [FullFrame(ts, f)], x, y);
      ShowsOne(FullFrame(ts, f), x, y);
      FullEffect(ts, f, x, y);
    }
  }

  lemma SubIsPatch(ts: u64, f: FrameData, r: Diff.Rect, m: Message)
    requires IsSubMessage(ts, f, r, m)
    ensures FromProto(m).Some? && Diff.IsPatch(f.pixels, f.stride, r, FromProto(m).value)
  {
    hide Diff.IsSubRect;
    assert FromProto(m).value == Diff.Patch(r, m.pixels);
  }

  lemma {:induction false} SubsArePatches(ts: u64, f: FrameData, regions: seq<Diff.Rect>, msgs: seq<Message>)
    requires AreSubMessages(ts, f, regions, msgs)
    ensures Diff.ArePatches(f.pixels, f.stride, regions, Events(msgs))
  {
    hide Diff.IsPatch, FromProto, IsSubMessage;
    if msgs != [] {
      var n := |msgs| - 1;
      SubsArePatches(ts, f, regions[..n], msgs[..n]);
      SubIsPatch(ts, f, regions[n], msgs[n]);
    }
  }

  lemma SubsShow(ms: seq<Message>, ts: u64, prev: FrameData, f: FrameData,
                 regions: seq<Diff.Rect>, msgs: seq<Message>)
    requires ShowsFrame(ms, prev) && prev.SameGeometry(f)
    requires AreRegionsOf(prev, f, regions) && AreSubMessages(ts, f, regions, msgs)
    ensures ShowsFrame(ms + msgs, f)
  {
    hide Diff.AreRegions, PixelAt, Shows, AreSubMessages;
    SubsArePatches(ts, f, regions, msgs);
    forall x, y | 0 <= x < f.width && 0 <= y < f.height
      ensures Shows(ms + msgs, x, y) == Some(PixelAt(f.pixels, f.stride, x, y))
    {
      ShowsConcat(ms, msgs, x, y);
      ShowsIsLastWrite(msgs, x, y);
      Diff.PatchingYieldsNewFrame(prev.pixels, f.pixels, f.width, f.height, f.stride, regions, Events(msgs), x, y);
    }
  }

  /** What is published for a new frame turns a picture of the old frame into one of the new. */
  lemma UpdateShows(ms: seq<Message>, ts: u64, prev: HostFrame, f: HostFrame, msgs: seq<Message>)
    requires ShowsFrame(ms, prev) && prev.SameGeometry(f) && IsUpdate(ts, prev, f, msgs)
    ensures ShowsFrame(ms + msgs, f)
  {
    hide Diff.AreRegions, PixelAt, Shows, AreSubMessages, TooMuch, FullFrame;
    var regions :|
      && AreRegionsOf(prev, f, regions)
      && if regions == [] then msgs == []
         else if TooMuch(regions, f) then msgs == [FullFrame(ts, f)]
         else AreSubMessages(ts, f, regions, msgs);
    if regions == [] {
      Diff.EmptyIffEqual(prev.pixels, f.pixels, f.width, f.height, f.stride, regions);
      assert ms + [] == ms;
      forall x, y | 0 <= x < f.width && 0 <= y < f.height
        ensures Shows(ms, x, y) == Some(PixelAt(f.pixels, f.stride, x, y))
      {
        assert !Diff.Differs(prev.pixels, f.pixels, f.stride, x, y);
      }
    } else if TooMuch(regions, f) {
      FullShows(ms, ts, f);
    } else {
      SubsShow(ms, ts, prev, f, regions, msgs);
    }
  }

  lemma FrameMirrors(ms: seq<Message>, h: Host, f: HostFrame, ts: u64, h': Host, msgs: seq<Message>)
    requires Mirrors(ms, h) && FrameStep(h, f, ts, h', msgs)
    ensures Mirrors(ms + msgs, h')
  {
    hide ShowsFrame, IsUpdate, FullFrame;
    if f.tabId != h.active {
      assert ms + [] == ms;
    } else if msgs == [FullFrame(ts, f)] {
      FullShows(ms, ts, f);
    } else {
      UpdateShows(ms, ts, h.last[f.tabId], f, msgs);
    }
  }

  lemma SwitchMirrors(ms: seq<Message>, h: Host, id: u32, ts: u64)
    requires id in h.tabs
    ensures Mirrors(ms + SwitchMsgs(h, id, ts), Switched(h, id))
  {
    hide ShowsFrame, FullFrame;
    var quiet := [Title(h.tabs[id].title), UrlChanged(h.tabs[id].url), Message.TabActivated(id)];
    if id in h.last {
      var full := FullFrame(ts, h.last[id]);
      FullShows(ms, ts, h.last[id]);
      QuietMirrors(ms + [full], quiet, Switched(h, id));
      assert ms + SwitchMsgs(h, id, ts) == (ms + [full]) + quiet;
    }
  }

  lemma CloseMirrors(ms: seq<Message>, h: Host, id: u32)
    requires Mirrors(ms, h)
    ensures Mirrors(ms, Closed(h, id))
  {
    hide ShowsFrame;
  }

  lemma SameFrames(ms: seq<Message>, h: Host, h': Host)
    requires Mirrors(ms, h) && h'.last == h.last && h'.active == h.active
    ensures Mirrors(ms, h')
  {
    hide ShowsFrame;
  }

  /** Every step of the host keeps the picture: if `ms` mirrored the host before, `ms` followed by what the
      step publishes mirrors it after, although intermediate frames of a batch are skipped. */
  lemma StepMirrors(ms: seq<Message>, h: Host, a: Action, ts: u64, h': Host, msgs: seq<Message>)
    requires Mirrors(ms, h) && Step(h, a, ts, h', msgs)
    ensures Mirrors(ms + msgs, h')
  {
    hide Mirrors, FrameStep, SwitchMsgs;
    match a {
      case NewFrame(f) => FrameMirrors(ms, h, f, ts, h', msgs);
      case SwitchTo(id) => SwitchMirrors(ms, h, id, ts);
      case CreateTab(id, url) => SwitchMirrors(ms, Created(h, id, url, NEW_TAB), id, ts);
      case CloseTab(id) =>
        assert ms + [] == ms;
        CloseMirrors(ms, h, id);
      case _ =>
        QuietMirrors(ms, msgs, h);
        SameFrames(ms + msgs, h, h');
    }
  }

  predicate SamePixel(f: FrameData, g: FrameData, x: nat, y: nat) {
    x < g.width && y < g.height && PixelAt(f.pixels, f.stride, x, y) == PixelAt(g.pixels, g.stride, x, y)
  }

  /** Every visible pixel of `f` lies within `g` and is the same there. */
  ghost predicate Within(f: FrameData, g: FrameData) {
    forall x: nat, y: nat :: x < f.width && y < f.height ==> SamePixel(f, g, x, y)
  }

  /** Whoever mirrored the host before the switch does so after it. */
  ghost predicate SwitchIsSafe(h: Host, id: u32, ts: u64) {
    forall ms :: Mirrors(ms, h) ==> Mirrors(ms + SwitchMsgs(h, id, ts), Switched(h, id))
  }

  lemma VisiblePixel(f: HostFrame, x: nat, y: nat)
    requires x < f.width && y < f.height
    ensures PixelAt(f.pixels, f.stride, x, y) != Pad
  {
    assert (y + 1) * f.stride <= f.height * f.stride;
  }

  lemma WithinShows(ms: seq<Message>, f: HostFrame, g: HostFrame)
    requires ShowsFrame(ms, g) && Within(f, g)
    ensures ShowsFrame(ms, f)
  {
    hide Shows, PixelAt;
    forall x, y | 0 <= x < f.width && 0 <= y < f.height
      ensures Shows(ms, x, y) == Some(PixelAt(f.pixels, f.stride, x, y))
    {
      assert SamePixel(f, g, x, y);
    }
  }

  lemma OnlyWithinShows(ts: u64, f: HostFrame, g: HostFrame)
    requires ShowsFrame([FullFrame(ts, g)], f)
    ensures Within(f, g)
  {
    hide Shows, PixelAt, FullFrame;
    forall x: nat, y: nat | x < f.width && y < f.height
      ensures SamePixel(f, g, x, y)
    {
      VisiblePixel(f, x, y);
      ShowsOne(FullFrame(ts, g), x, y);
      FullEffect(ts, g, x, y);
      assert Shows([FullFrame(ts, g)], x, y) == Some(PixelAt(f.pixels, f.stride, x, y));
    }
  }

  lemma ShowsNothing(f: HostFrame)
    ensures !ShowsFrame([], f)
  {
    assert Shows([], 0, 0).None?;
  }

  lemma LateFrame(h: Host, id: u32, ts: u64)
    requires id !in h.tabs && id in h.last && h.active in h.last
    ensures SwitchIsSafe(h, id, ts) <==> Within(h.last[id], h.last[h.active])
  {
    hide ShowsFrame, Within, FullFrame;
    var f, g := h.last[id], h.last[h.active];
    if Within(f, g) {
      forall ms | Mirrors(ms, h)
        ensures Mirrors(ms + SwitchMsgs(h, id, ts), Switched(h, id))
      {
        assert ms + SwitchMsgs(h, id, ts) == ms;
        WithinShows(ms, f, g);
      }
    }
    if SwitchIsSafe(h, id, ts) {
      var up := [FullFrame(ts, g)];
      FullShows([], ts, g);
      assert [] + up == up;
      assert Mirrors(up, h);
      assert up + SwitchMsgs(h, id, ts) == up;
      OnlyWithinShows(ts, f, g);
    }
  }

  /** Nothing is published for a tab that is not open, so switching to one is safe exactly when no late frame of it
      is stored, or the picture already up contains that frame. */
  lemma SwitchSafety(h: Host, id: u32, ts: u64)
    ensures SwitchIsSafe(h, id, ts)
       <==> id in h.tabs || id !in h.last || (h.active in h.last && Within(h.last[id], h.last[h.active]))
  {
    hide ShowsFrame, Within, FullFrame;
    if id in h.tabs {
      forall ms
        ensures Mirrors(ms + SwitchMsgs(h, id, ts), Switched(h, id))
      {
        SwitchMirrors(ms, h, id, ts);
      }
    } else if id in h.last {
      forall ms
        ensures ms + SwitchMsgs(h, id, ts) == ms
      {
      }
      if h.active !in h.last {
        ShowsNothing(h.last[id]);
        assert Mirrors([], h) && !Mirrors([] + SwitchMsgs(h, id, ts), Switched(h, id));
      } else {
        LateFrame(h, id, ts);
      }
    }
  }

  const FIRST: HostFrame := FrameData(1, 1, 1, 4, 0, [0, 0, 0, 0])
  const LATE: HostFrame := FrameData(2, 1, 1, 4, 0, [1, 1, 1, 1])
  const LATE_FRAME_STORED := Host(map[1 := FIRST, 2 := LATE], map[1 := TabEntry([], NEW_TAB)], 1, {})

  /** A first tab with a picture; a second one opened, left again and closed; its last frame arriving late. */
  lemma LateFrameArises()
    ensures Arises(LATE_FRAME_STORED)
  {
    hide Arises, IsUpdate, FullFrame;
    var h1 := Initial([]).(last := map[1 := FIRST]);
    var h2 := Switched(Created(h1, 2, [], NEW_TAB), 2);
    var h3 := Switched(h2, 1);
    var h4 := Closed(h3, 2);
    InitialArises([]);
    StepArises(Initial([]), NewFrame(FIRST), 0, h1, [FullFrame(0, FIRST)]);
    StepArises(h1, Action.CreateTab(2, []), 0, h2, SwitchMsgs(Created(h1, 2, [], NEW_TAB), 2, 0));
    StepArises(h2, SwitchTo(1), 0, h3, SwitchMsgs(h2, 1, 0));
    StepArises(h3, Action.CloseTab(2), 0, h4, []);
    StepArises(h4, NewFrame(LATE), 0, LATE_FRAME_STORED, []);
  }

  /** A new host can get into a state in which switching to a closed tab leaves the old picture up. */
  lemma SwitchToClosedTab()
    ensures exists h: Host, id: u32 :: Arises(h) && id !in h.tabs && !SwitchIsSafe(h, id, 0)
  {
    hide Arises, SwitchIsSafe;
    LateFrameArises();
    SwitchSafety(LATE_FRAME_STORED, 2, 0);
    assert !SamePixel(LATE, FIRST, 0, 0);
    assert !Within(LATE, FIRST);
  }
}
