/** A tab switch seen by a client that did not ask for it: the host publishes the tab's frame before the activation,
    so a pass between the two blanks the frame. */
module TabSwitch {
  import opened Bytes
  import opened Wire
  import opened Screen
  import opened Host
  import opened Mirror
  import opened Compositor
  import opened Schedule
  import opened Tabs
  import opened WindowLoop

  function Content(f: HostFrame): RenderEvent {
    RenderEvent.Frame(GfxFrame(f.width, f.height, f.stride, f.pixels))
  }

  /** What the messages of a switch to an open tab with a stored frame are to the client. */
  lemma SwitchEvents(h: Host, id: u32, ts: u64)
    requires id in h.tabs && id in h.last
    ensures Events(SwitchMsgs(h, id, ts)) == [Content(h.last[id]), RenderEvent.TabActivated(id)]
  {
    var ms := SwitchMsgs(h, id, ts);
    assert ms[..3][..2][..1][..0] == [];
    assert ms[..3][..2] == ms[..2] && ms[..2][..1] == ms[..1];
    assert Events(ms[..1]) == [Content(h.last[id])];
    assert Events(ms[..2]) == Events(ms[..1]) + [];
    assert Events(ms[..3]) == Events(ms[..2]) + [];
  }

  lemma SwitchOps(v: TabState, f: HostFrame, id: u32)
    requires v.active != id
    ensures OpsOf(v, [Content(f)]) == [Arrive(Content(f))]
    ensures OpsOf(EchoedAll(v, [Content(f)]), [RenderEvent.TabActivated(id)]) == [Blank]
    ensures OpsOf(v, [Content(f), RenderEvent.TabActivated(id)]) == [Arrive(Content(f)), Blank]
  {
    hide OpsOf, EchoedAll;
    var first, second := Content(f), RenderEvent.TabActivated(id);
    OpsAppend(v, [], first);
    OpsAppend(v, [first], second);
    OpsAppend(EchoedAll(v, [first]), [], second);
    NoEvents(v);
    NoEvents(EchoedAll(v, [first]));
    assert [] + [first] == [first] && [] + [second] == [second] && [first] + [second] == [first, second];
    assert [] + [Arrive(first)] == [Arrive(first)] && [] + [Blank] == [Blank];
    assert [Arrive(first)] + [Blank] == [Arrive(first), Blank];
  }

  lemma TogetherShows(v: TabState, b: Backlog, f: HostFrame, id: u32, x: nat, y: nat)
    requires v.active != id
    ensures ShownAfter(v, b, [[Content(f), RenderEvent.TabActivated(id)]], x, y) == Writes(Content(f), x, y)
  {
    hide PixelAt;
    var evs := [Content(f), RenderEvent.TabActivated(id)];
    SwitchOps(v, f, id);
    PassShows(v, b, [], evs, x, y);
    assert [] + [evs] == [evs];
    assert Queued(b, []) == b;
    var ops := [Arrive(Content(f)), Blank];
    assert ops[..1] == [Arrive(Content(f))] && ops[..1][..0] == [];
    assert Queued(b, ops) == Backlog([Content(f).f], [], true);
    AboveNone();
  }

  lemma ApartPads(v: TabState, b: Backlog, f: HostFrame, id: u32, x: nat, y: nat)
    requires v.active != id
    ensures ShownAfter(v, b, [[Content(f)], [RenderEvent.TabActivated(id)]], x, y) == Some(Pad)
  {
    hide PixelAt;
    var first, second := [Content(f)], [RenderEvent.TabActivated(id)];
    SwitchOps(v, f, id);
    PassShows(v, b, [], first, x, y);
    assert [] + [first] == [first] && [first] + [second] == [first, second];
    PassShows(v, b, [first], second, x, y);
    assert Concat([first]) == first by {
      assert [first][..0] == [] && [] + first == first;
    }
    assert Queued(CLEAN, [Blank]) == CLEAN.(dirty := true) by {
      assert [Blank][..0] == [];
    }
    AboveNone();
  }

  /** A host switches to an open tab with a stored frame, and a client is on another tab: handled in one batch the
      messages show the frame, with a pass in between they show padding. */
  lemma SwitchPads(h: Host, id: u32, ts: u64, v: TabState, b: Backlog, x: nat, y: nat)
    requires id in h.tabs && id in h.last && v.active != id && x < h.last[id].width && y < h.last[id].height
    ensures var evs, f := Events(SwitchMsgs(h, id, ts)), h.last[id];
            && |evs| == 2
            && ShownAfter(v, b, [evs], x, y) == Some(PixelAt(f.pixels, f.stride, x, y))
            && ShownAfter(v, b, [evs[..1], evs[1..]], x, y) == Some(Pad)
            && PixelAt(f.pixels, f.stride, x, y) != Pad
  {
    hide PixelAt, ShownAfter, Events, SwitchMsgs;
    var f := h.last[id];
    SwitchEvents(h, id, ts);
    var evs := [Content(f), RenderEvent.TabActivated(id)];
    assert evs[..1] == [Content(f)] && evs[1..] == [RenderEvent.TabActivated(id)];
    TogetherShows(v, b, f, id, x, y);
    ApartPads(v, b, f, id, x, y);
    VisiblePixel(f, x, y);
    assert Accepted(Content(f));
  }

  /** A second tab with a picture, in the background; a new client shows the first. */
  const BACKGROUND := Host(map[2 := LATE], map[1 := TabEntry([], NEW_TAB), 2 := TabEntry([], NEW_TAB)], 1, {})

  /** A new host gets there, and its next switch is one that pads. */
  lemma SwitchThatPads()
    ensures Arises(BACKGROUND)
    ensures Step(BACKGROUND, SwitchTo(2), 0, Switched(BACKGROUND, 2), SwitchMsgs(BACKGROUND, 2, 0))
    ensures forall b: Backlog :: ShownAfter(TabState([TabInfo(1, [])], 1, 2), b,
                                            [[Content(LATE)], [RenderEvent.TabActivated(2)]], 0, 0) == Some(Pad)
  {
    hide Arises, IsUpdate, FullFrame, ShownAfter;
    var h1 := Switched(Created(Initial([]), 2, [], NEW_TAB), 2);
    var h2 := h1.(last := map[2 := LATE]);
    InitialArises([]);
    StepArises(Initial([]), Action.CreateTab(2, []), 0, h1, SwitchMsgs(Created(Initial([]), 2, [], NEW_TAB), 2, 0));
    StepArises(h1, NewFrame(LATE), 0, h2, [FullFrame(0, LATE)]);
    StepArises(h2, SwitchTo(1), 0, BACKGROUND, SwitchMsgs(h2, 1, 0));
    forall b: Backlog
      ensures ShownAfter(TabState([TabInfo(1, [])], 1, 2), b,
                         [[Content(LATE)], [RenderEvent.TabActivated(2)]], 0, 0) == Some(Pad)
    {
      ApartPads(TabState([TabInfo(1, [])], 1, 2), b, LATE, 2, 0, 0);
    }
  }
}
