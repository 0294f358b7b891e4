/** The window loop: drain what has arrived, render, repeat. What is on screen afterwards, and when it depends on how
    the events were cut into batches. */
module WindowLoop {
  import opened Bytes
  import opened Screen
  import opened Framebuffer
  import opened Compositor
  import opened Schedule
  import opened Tabs
  import opened Client

  function Concat(batches: seq<seq<RenderEvent>>): seq<RenderEvent> {
    if batches == [] then [] else Concat(batches[..|batches| - 1]) + batches[|batches| - 1]
  }

  lemma ConcatStep(batches: seq<seq<RenderEvent>>, k: nat)
    requires k < |batches|
    ensures Concat(batches[..k + 1]) == Concat(batches[..k]) + batches[k]
  {
    assert batches[..k + 1][..k] == batches[..k];
  }

  /** Rows of pixels are whole, and the tab counter does not overflow. */
  predicate IsEvent(ev: RenderEvent) {
    Regular(ev) && (ev.TabCreated? ==> ev.tabId + 1 < TWO_32)
  }

  function EchoedAll(v: TabState, evs: seq<RenderEvent>): TabState {
    if evs == [] then v else Echoed(EchoedAll(v, evs[..|evs| - 1]), evs[|evs| - 1])
  }

  lemma {:induction false} EchoedConcat(v: TabState, a: seq<RenderEvent>, b: seq<RenderEvent>)
    ensures EchoedAll(v, a + b) == EchoedAll(EchoedAll(v, a), b)
    decreases |b|
  {
    hide Echoed;
    if b == [] {
      assert a + b == a;
    } else {
      EchoedConcat(v, a, b[..|b| - 1]);
      assert (a + b)[..|a + b| - 1] == a + b[..|b| - 1];
    }
  }

  /** What the events do to the content area: tab changes declare it stale, everything else arrives. */
  function OpsOf(v: TabState, evs: seq<RenderEvent>): seq<Op> {
    if evs == [] then []
    else
      var init := evs[..|evs| - 1];
      OpsOf(v, init) + [if EchoedAll(v, evs).active != EchoedAll(v, init).active then Blank else Arrive(evs[|evs| - 1])]
  }

  lemma {:induction false} OpsConcat(v: TabState, a: seq<RenderEvent>, b: seq<RenderEvent>)
    ensures OpsOf(v, a + b) == OpsOf(v, a) + OpsOf(EchoedAll(v, a), b)
    decreases |b|
  {
    hide Echoed;
    if b == [] {
      assert a + b == a;
    } else {
      OpsConcat(v, a, b[..|b| - 1]);
      EchoedConcat(v, a, b);
      EchoedConcat(v, a, b[..|b| - 1]);
      assert (a + b)[..|a + b| - 1] == a + b[..|b| - 1];
    }
  }

  lemma MovesWriteNothing(v: TabState, ev: RenderEvent, x: nat, y: nat)
    requires Echoed(v, ev).active != v.active
    ensures Writes(ev, x, y).None?
  {
  }

  /** Tab changes write nothing, so leaving them out loses no write; and there are no passes among the events. */
  lemma {:induction false} OpsWrite(v: TabState, evs: seq<RenderEvent>, x: nat, y: nat)
    ensures LastWrite(Arrivals(OpsOf(v, evs)), x, y) == LastWrite(evs, x, y)
    ensures Render !in OpsOf(v, evs)
  {
    hide Writes, Echoed;
    if evs != [] {
      var n := |evs| - 1;
      var init, ops := evs[..n], OpsOf(v, evs[..n]);
      OpsWrite(v, init, x, y);
      assert OpsOf(v, evs)[..|ops|] == ops;
      if OpsOf(v, evs)[|ops|] == Blank {
        MovesWriteNothing(EchoedAll(v, init), evs[n], x, y);
        assert Arrivals(ops) + [] == Arrivals(ops);
      } else {
        LastWriteAppend(Arrivals(ops), evs[n], x, y);
      }
    }
  }

  lemma OpsAppend(v: TabState, evs: seq<RenderEvent>, ev: RenderEvent)
    ensures var v1 := EchoedAll(v, evs);
            && EchoedAll(v, evs + [ev]) == Echoed(v1, ev)
            && OpsOf(v, evs + [ev])
               == OpsOf(v, evs) + [if Echoed(v1, ev).active != v1.active then Blank else Arrive(ev)]
  {
    hide Echoed;
    assert (evs + [ev])[..|evs|] == evs;
  }

  lemma OneOp(v: TabState, evs: seq<RenderEvent>, ev: RenderEvent, b: Backlog)
    ensures var v1 := EchoedAll(v, evs);
            && EchoedAll(v, evs + [ev]) == Echoed(v1, ev)
            && Queued(b, OpsOf(v, evs + [ev]))
               == if Echoed(v1, ev).active != v1.active then Queued(b, OpsOf(v, evs)).(dirty := true)
                  else Enqueue(Queued(b, OpsOf(v, evs)), ev)
  {
    hide Echoed, Enqueue, OpsOf, EchoedAll;
    OpsAppend(v, evs, ev);
    var ops := OpsOf(v, evs + [ev]);
    assert ops[..|ops| - 1] == OpsOf(v, evs);
  }

  lemma NoOps(v: TabState, b: Backlog)
    ensures Queued(b, OpsOf(v, [])) == b
  {
  }

  /** Handle everything that has arrived. */
  method HandleAll(core: BrowserCore, evs: seq<RenderEvent>)
    requires core.Valid() && forall ev :: ev in evs ==> IsEvent(ev)
    modifies core
    ensures core.Valid() && core.winW == old(core.winW) && core.winH == old(core.winH)
    ensures core.TabView() == EchoedAll(old(core.TabView()), evs)
    ensures core.Pending() == Queued(old(core.Pending()), OpsOf(old(core.TabView()), evs))
  {
    hide Enqueue, Echoed, Queued, OpsOf;
    ghost var v, b := core.TabView(), core.Pending();
    NoOps(v, b);
    for k := 0 to |evs|
      invariant core.Valid() && core.winW == old(core.winW) && core.winH == old(core.winH)
      invariant core.TabView() == EchoedAll(v, evs[..k])
      invariant core.Pending() == Queued(b, OpsOf(v, evs[..k]))
    {
      assert IsEvent(evs[k]);
      core.HandleRenderEvent(evs[k]);
      assert evs[..k + 1] == evs[..k] + [evs[k]];
      OneOp(v, evs[..k], evs[k], b);
    }
    assert evs[..|evs|] == evs;
  }

  /** The events batch by batch, with a pass after each. */
  function Passes(v: TabState, batches: seq<seq<RenderEvent>>): seq<Op> {
    if batches == [] then []
    else
      var init := batches[..|batches| - 1];
      Passes(v, init) + OpsOf(EchoedAll(v, Concat(init)), batches[|batches| - 1]) + [Render]
  }

  lemma NoEvents(v: TabState)
    ensures OpsOf(v, []) == [] && EchoedAll(v, []) == v
  {
  }

  lemma {:induction false} PassesUnrendered(v: TabState, batches: seq<seq<RenderEvent>>)
    ensures Unrendered(Passes(v, batches)) == OpsOf(v, Concat(batches))
  {
    hide OpsOf, EchoedAll;
    if batches == [] {
      assert OpsOf(v, []) == [] by {
        NoEvents(v);
      }
    } else {
      var init, b := batches[..|batches| - 1], batches[|batches| - 1];
      var ops := OpsOf(EchoedAll(v, Concat(init)), b);
      PassesUnrendered(v, init);
      UnrenderedConcat(Passes(v, init) + ops, [Render]);
      UnrenderedConcat(Passes(v, init), ops);
      OpsWrite(EchoedAll(v, Concat(init)), b, 0, 0);
      UnrenderedSame(ops);
      assert Unrendered([Render]) == [] by {
        assert [Render][..0] == [];
      }
      OpsConcat(v, Concat(init), b);
    }
  }

  /** What content pixel (x, y) of a window shows after the batches, if they or the queue touched it. */
  function ShownAfter(v: TabState, b: Backlog, batches: seq<seq<RenderEvent>>, x: nat, y: nat): Option<Pixel> {
    Run(Spot(None, b), Passes(v, batches), x, y).shown
  }

  lemma PassShows(v: TabState, b: Backlog, init: seq<seq<RenderEvent>>, batch: seq<RenderEvent>, x: nat, y: nat)
    ensures var v1 := EchoedAll(v, Concat(init));
            ShownAfter(v, b, init + [batch], x, y)
            == Over(ShownAfter(v, b, init, x, y), Paints(Queued(Queued(b, Passes(v, init)), OpsOf(v1, batch)), x, y))
    ensures Queued(b, Passes(v, init + [batch])) == CLEAN
  {
    hide OpsOf, EchoedAll, Paints, Enqueue;
    var s, ops := Spot(None, b), OpsOf(EchoedAll(v, Concat(init)), batch);
    assert (init + [batch])[..|init|] == init;
    assert Passes(v, init + [batch]) == Passes(v, init) + ops + [Render];
    Appended(s, Passes(v, init) + ops, Render, x, y);
    RunConcat(s, Passes(v, init), ops, x, y);
    var s1 := Run(s, Passes(v, init), x, y);
    RunQueues(s, Passes(v, init), x, y);
    OpsWrite(EchoedAll(v, Concat(init)), batch, x, y);
    RunQueues(s1, ops, x, y);
    RunQueues(s, Passes(v, init + [batch]), x, y);
  }

  lemma MixedOver(a: Option<Pixel>, b: Option<Pixel>, was: u32)
    ensures Mixed(Over(a, b), was) == Mixed(b, Mixed(a, was))
  {
    hide Word;
  }

  lemma NothingShown(v: TabState, b: Backlog)
    ensures Queued(b, Passes(v, [])) == b
    ensures forall x, y, was :: Mixed(ShownAfter(v, b, [], x, y), was) == was
  {
  }

  /** The window loop: drain what has arrived, render, repeat. Every content cell ends as the schedule of events, tab
      changes and passes says. */
  method RunLoop(core: BrowserCore, buffer: array<u32>, chromes: seq<seq<u32>>, batches: seq<seq<RenderEvent>>)
    requires core.Valid() && core.Fits(buffer) && |chromes| == |batches|
    requires forall k :: 0 <= k < |chromes| ==> |chromes[k]| == Min(CHROME_H, core.winH) * core.winW
    requires forall k :: 0 <= k < |batches| ==> forall ev :: ev in batches[k] ==> IsEvent(ev)
    modifies core, buffer
    ensures core.Valid() && core.winW == old(core.winW) && core.winH == old(core.winH)
    ensures core.TabView() == EchoedAll(old(core.TabView()), Concat(batches))
    ensures core.winH > CHROME_H ==> core.Pending() == Queued(old(core.Pending()), Passes(old(core.TabView()), batches))
    ensures forall x, y :: 0 <= x < core.winW && 0 <= y < core.winH && y >= CHROME_H ==>
              Cell(buffer, core.winW, x, y)
              == Mixed(ShownAfter(old(core.TabView()), old(core.Pending()), batches, x, y - CHROME_H),
                       old(Cell(buffer, core.winW, x, y)))
  {
    hide Cell, Paints, IsEvent, At, Mixed, OpsOf, Queued, ShownAfter, Passes;
    ghost var v, b := core.TabView(), core.Pending();
    NothingShown(v, b);
    for k := 0 to |batches|
      invariant core.Valid() && core.winW == old(core.winW) && core.winH == old(core.winH)
      invariant core.TabView() == EchoedAll(v, Concat(batches[..k]))
      invariant core.winH > CHROME_H ==> core.Pending() == Queued(b, Passes(v, batches[..k]))
      invariant forall x, y :: 0 <= x < core.winW && 0 <= y < core.winH && y >= CHROME_H ==>
                  Cell(buffer, core.winW, x, y)
                  == Mixed(ShownAfter(v, b, batches[..k], x, y - CHROME_H), old(Cell(buffer, core.winW, x, y)))
    {
      ghost var a := Concat(batches[..k]);
      HandleAll(core, batches[k]);
      label queued:
      var damage := core.RenderInto(buffer, chromes[k]);
      ConcatStep(batches, k);
      EchoedConcat(v, a, batches[k]);
      assert batches[..k + 1] == batches[..k] + [batches[k]];
      if core.winH > CHROME_H {
        PassShows(v, b, batches[..k], batches[k], 0, 0);
      }
      forall x, y | 0 <= x < core.winW && 0 <= y < core.winH && y >= CHROME_H
        ensures Cell(buffer, core.winW, x, y)
             == Mixed(ShownAfter(v, b, batches[..k + 1], x, y - CHROME_H), old(Cell(buffer, core.winW, x, y)))
      {
        PassShows(v, b, batches[..k], batches[k], x, y - CHROME_H);
        MixedOver(ShownAfter(v, b, batches[..k], x, y - CHROME_H),
                  old@queued(Paints(core.Pending(), x, y - CHROME_H)), old(Cell(buffer, core.winW, x, y)));
      }
    }
    assert batches[..|batches|] == batches;
  }

  /** What the window loop may leave at (x, y), whatever the batches: exactly what the schedule theorems say of the same
      events and tab changes without passes. */
  lemma LoopOutcome(v: TabState, b: Backlog, batches: seq<seq<RenderEvent>>, x: nat, y: nat)
    requires AllAccepted(b) && batches != []
    ensures MayLeave(Spot(None, b), OpsOf(v, Concat(batches)), ShownAfter(v, b, batches, x, y), x, y)
  {
    hide Run, Paints, LastWrite, Since, OpsOf, AllAccepted, Passes, Unrendered;
    var s, ops := Spot(None, b), Passes(v, batches);
    Outcome(s, ops, x, y);
    PassesUnrendered(v, batches);
    UnrenderedKeeps(ops, x, y);
    var init := batches[..|batches| - 1];
    assert batches == init + [batches[|batches| - 1]];
    PassShows(v, b, init, batches[|batches| - 1], x, y);
    RunQueues(s, ops, x, y);
    CleanPaintsNothing(x, y);
  }

  lemma OneBatch(v: TabState, b: Backlog, evs: seq<RenderEvent>, x: nat, y: nat)
    requires AllAccepted(b)
    ensures Concat([evs]) == evs
    ensures ShownAfter(v, b, [evs], x, y) == Look(Run(Spot(None, b), OpsOf(v, evs), x, y), x, y)
  {
    hide OpsOf, Paints;
    assert [evs][..0] == [] && [] + [evs] == [evs] && [] + evs == evs;
    PassShows(v, b, [], evs, x, y);
    OpsWrite(v, evs, x, y);
    RunQueues(Spot(None, b), OpsOf(v, evs), x, y);
  }

  lemma {:induction false} OpsPrefix(v: TabState, evs: seq<RenderEvent>, k: nat)
    requires k <= |evs|
    ensures |OpsOf(v, evs)| == |evs| && OpsOf(v, evs)[..k] == OpsOf(v, evs[..k])
  {
    hide Echoed;
    if evs != [] {
      var n := |evs| - 1;
      if k <= n {
        OpsPrefix(v, evs[..n], k);
        assert evs[..n][..k] == evs[..k];
        assert OpsOf(v, evs)[..k] == OpsOf(v, evs[..n])[..k];
      } else {
        OpsPrefix(v, evs[..n], n);
        assert evs[..k] == evs;
      }
    }
  }

  lemma SameTail(a: seq<Op>, b: seq<Op>, c: seq<Op>)
    requires a + b == a + c
    ensures b == c
  {
    assert b == (a + b)[|a|..] == (a + c)[|a|..] == c;
  }

  lemma TwoBatches(v: TabState, a: seq<RenderEvent>, b: seq<RenderEvent>)
    ensures Concat([a, b]) == a + b
    ensures Passes(v, [a, b]) == OpsOf(v, a) + [Render] + (OpsOf(EchoedAll(v, a), b) + [Render])
  {
    hide OpsOf;
    assert [a, b][..1] == [a] && [a][..0] == [];
    assert Concat([a]) == [] + a == a;
    assert Passes(v, [a]) == [] + OpsOf(v, a) + [Render] == OpsOf(v, a) + [Render];
  }

  /** Two batches, cut just before the last tab change, show padding where nothing is written after it. */
  lemma CutBeforeMove(v: TabState, b: Backlog, evs: seq<RenderEvent>, x: nat, y: nat)
    returns (batches: seq<seq<RenderEvent>>)
    requires Blank in OpsOf(v, evs) && Since(OpsOf(v, evs), x, y).None?
    ensures batches != [] && Concat(batches) == evs && ShownAfter(v, b, batches, x, y) == Some(Pad)
  {
    hide OpsOf, Run, Since, Paints, EchoedAll;
    var ops, s := OpsOf(v, evs), Spot(None, b);
    var a, c := BlankSplit(ops);
    SinceBlank(a, c, x, y);
    OpsPrefix(v, evs, 0);
    OpsPrefix(v, evs, |a|);
    var first, second := evs[..|a|], evs[|a|..];
    batches := [first, second];
    assert first + second == evs && OpsOf(v, first) == a;
    OpsConcat(v, first, second);
    assert OpsOf(EchoedAll(v, first), second) == [Blank] + c by {
      assert a + ([Blank] + c) == ops;
      SameTail(a, OpsOf(EchoedAll(v, first), second), [Blank] + c);
    }
    TwoBatches(v, first, second);
    var all := a + [Render] + [Blank] + c;
    assert Passes(v, batches) == all + [Render];
    Appended(s, all, Render, x, y);
    PadAfterPass(s, a, c, x, y);
  }

  ghost predicate SameForAllBatches(v: TabState, b: Backlog, evs: seq<RenderEvent>, x: nat, y: nat) {
    forall batches :: batches != [] && Concat(batches) == evs ==>
      ShownAfter(v, b, batches, x, y) == ShownAfter(v, b, [evs], x, y)
  }

  lemma SettledOutcome(s: Spot, ops: seq<Op>, l: Option<Pixel>, m: Option<Pixel>, x: nat, y: nat)
    requires Settled(s, ops, x, y) && MayLeave(s, ops, l, x, y) && MayLeave(s, ops, m, x, y)
    ensures l == m
  {
    hide Look, Written, Since, LastWrite;
  }

  /** Exactly when it does not matter at (x, y) how the window loop cuts the events into batches. */
  lemma LoopIrrelevant(v: TabState, b: Backlog, evs: seq<RenderEvent>, x: nat, y: nat)
    requires AllAccepted(b)
    ensures SameForAllBatches(v, b, evs, x, y) <==> Settled(Spot(None, b), OpsOf(v, evs), x, y)
  {
    hide OpsOf, ShownAfter, MayLeave, Since, Written, Run, AllAccepted, Concat, Paints;
    var s, ops := Spot(None, b), OpsOf(v, evs);
    OneBatch(v, b, evs, x, y);
    if Settled(s, ops, x, y) {
      forall batches | batches != [] && Concat(batches) == evs
        ensures ShownAfter(v, b, batches, x, y) == ShownAfter(v, b, [evs], x, y)
      {
        LoopOutcome(v, b, batches, x, y);
        LoopOutcome(v, b, [evs], x, y);
        SettledOutcome(s, ops, ShownAfter(v, b, batches, x, y), ShownAfter(v, b, [evs], x, y), x, y);
      }
    } else {
      OpsWrite(v, evs, x, y);
      UnrenderedPaints(s, ops, x, y);
      var batches := CutBeforeMove(v, b, evs, x, y);
    }
  }
}
