/** Rendering passes among arriving events and tab changes: what is on screen in the end, and when it depends on where
    the passes came. */
module Schedule {
  import opened Bytes
  import opened Screen
  import opened Compositor

  datatype Op =
    | Arrive(ev: RenderEvent)
    | Blank     // a tab change declares the content area stale
    | Render

  /** One content pixel: what the buffer holds, if it was ever painted, and the backlog. */
  datatype Spot = Spot(shown: Option<Pixel>, backlog: Backlog)

  function Do(s: Spot, op: Op, x: nat, y: nat): Spot {
    match op
    case Arrive(ev) => s.(backlog := Enqueue(s.backlog, ev))
    case Blank => s.(backlog := s.backlog.(dirty := true))
    case Render => Spot(Over(s.shown, Paints(s.backlog, x, y)), CLEAN)
  }

  function Run(s: Spot, ops: seq<Op>, x: nat, y: nat): Spot {
    if ops == [] then s else Do(Run(s, ops[..|ops| - 1], x, y), ops[|ops| - 1], x, y)
  }

  /** What one more rendering pass would show. */
  function Look(s: Spot, x: nat, y: nat): Option<Pixel> {
    Over(s.shown, Paints(s.backlog, x, y))
  }

  function Arrivals(ops: seq<Op>): seq<RenderEvent> {
    if ops == [] then []
    else Arrivals(ops[..|ops| - 1]) + if ops[|ops| - 1].Arrive? then [ops[|ops| - 1].ev] else []
  }

  lemma Appended(s: Spot, ops: seq<Op>, op: Op, x: nat, y: nat)
    ensures Run(s, ops + [op], x, y) == Do(Run(s, ops, x, y), op, x, y)
    ensures Arrivals(ops + [op]) == Arrivals(ops) + if op.Arrive? then [op.ev] else []
  {
    hide Do;
    assert (ops + [op])[..|ops|] == ops;
  }

  lemma {:induction false} RunConcat(s: Spot, a: seq<Op>, b: seq<Op>, x: nat, y: nat)
    ensures Run(s, a + b, x, y) == Run(Run(s, a, x, y), b, x, y)
    ensures Arrivals(a + b) == Arrivals(a) + Arrivals(b)
    decreases |b|
  {
    hide Do;
    if b == [] {
      assert a + b == a;
    } else {
      RunConcat(s, a, b[..|b| - 1], x, y);
      assert (a + b)[..|a + b| - 1] == a + b[..|b| - 1];
    }
  }

  lemma CleanPaintsNothing(x: nat, y: nat)
    ensures Paints(CLEAN, x, y).None?
  {
  }

  /** The backlog alone, the same at every pixel. */
  function Queued(b: Backlog, ops: seq<Op>): Backlog {
    if ops == [] then b
    else
      var b1 := Queued(b, ops[..|ops| - 1]);
      match ops[|ops| - 1]
      case Arrive(ev) => Enqueue(b1, ev)
      case Blank => b1.(dirty := true)
      case Render => CLEAN
  }

  lemma {:induction false} RunQueues(s: Spot, ops: seq<Op>, x: nat, y: nat)
    ensures Run(s, ops, x, y).backlog == Queued(s.backlog, ops)
    ensures Render !in ops ==> Run(s, ops, x, y).shown == s.shown
  {
    hide Enqueue, Paints;
    if ops != [] {
      RunQueues(s, ops[..|ops| - 1], x, y);
    }
  }

  // ─── Without tab changes ─────────────────────────────────────────────────

  /** Batching: for any events, and rendering passes at any points among them, a final pass shows the last write
      of those events. The schedule of the passes leaves no trace. */
  lemma {:induction false} BatchingIrrelevant(s: Spot, ops: seq<Op>, x: nat, y: nat)
    requires Blank !in ops
    ensures Look(Run(s, ops, x, y), x, y) == Over(Look(s, x, y), LastWrite(Arrivals(ops), x, y))
  {
    hide Writes, Base, Enqueue;
    if ops != [] {
      var init, op := ops[..|ops| - 1], ops[|ops| - 1];
      BatchingIrrelevant(s, init, x, y);
      var s1 := Run(s, init, x, y);
      match op {
        case Arrive(ev) =>
          EnqueuePaints(s1.backlog, ev, x, y);
          LastWriteAppend(Arrivals(init), ev, x, y);
        case Render =>
          CleanPaintsNothing(x, y);
          assert Arrivals(init) + [] == Arrivals(init);
        case Blank => assert false;
      }
    }
  }

  // ─── With tab changes ────────────────────────────────────────────────────

  /** Only frames that the client accepts are queued. */
  ghost predicate AllAccepted(b: Backlog) {
    forall f :: f in b.frames ==> Accepted(RenderEvent.Frame(f))
  }

  lemma {:induction false} RunKeepsAccepted(s: Spot, ops: seq<Op>, x: nat, y: nat)
    requires AllAccepted(s.backlog)
    ensures AllAccepted(Run(s, ops, x, y).backlog)
  {
    hide Accepted, Paints;
    if ops != [] {
      RunKeepsAccepted(s, ops[..|ops| - 1], x, y);
    }
  }

  /** What arrives after the last tab change puts at (x, y). */
  function Since(ops: seq<Op>, x: nat, y: nat): Option<Pixel> {
    if ops == [] then None
    else
      var init := ops[..|ops| - 1];
      match ops[|ops| - 1]
      case Arrive(ev) => Over(Since(init, x, y), Writes(ev, x, y))
      case Blank => None
      case Render => Since(init, x, y)
  }

  /** What the queue and everything that arrives put there, tab changes left out. */
  function Written(s: Spot, ops: seq<Op>, x: nat, y: nat): Option<Pixel> {
    Over(Paints(s.backlog, x, y), LastWrite(Arrivals(ops), x, y))
  }

  lemma {:induction false} SinceIsLast(ops: seq<Op>, x: nat, y: nat)
    ensures Since(ops, x, y).Some? ==> LastWrite(Arrivals(ops), x, y) == Since(ops, x, y)
    ensures Blank !in ops ==> LastWrite(Arrivals(ops), x, y) == Since(ops, x, y)
  {
    hide Writes;
    if ops != [] {
      var init, op := ops[..|ops| - 1], ops[|ops| - 1];
      SinceIsLast(init, x, y);
      if op.Arrive? {
        LastWriteAppend(Arrivals(init), op.ev, x, y);
      } else {
        assert Arrivals(init) + [] == Arrivals(init);
      }
    }
  }

  lemma WrittenStep(s: Spot, init: seq<Op>, op: Op, x: nat, y: nat)
    ensures Written(s, init + [op], x, y)
         == if op.Arrive? then Over(Written(s, init, x, y), Writes(op.ev, x, y)) else Written(s, init, x, y)
  {
    hide Writes, Paints;
    Appended(s, init, op, x, y);
    if op.Arrive? {
      LastWriteAppend(Arrivals(init), op.ev, x, y);
    } else {
      assert Arrivals(init) + [] == Arrivals(init);
    }
  }

  /** The stale mark is harmless exactly while a frame or another mark is queued, or where a queued subframe
      covers it, or where padding is showing anyway. */
  lemma BlankKeeps(s: Spot, x: nat, y: nat)
    ensures Look(Do(s, Blank, x, y), x, y) == Look(s, x, y)
       <==> s.backlog.frames != [] || s.backlog.dirty || Above(s.backlog.subs, x, y).Some?
            || s.shown == Some(Pad)
  {
    hide Writes, Above;
  }

  /** Where something is queued the mark changes nothing; elsewhere it pads. */
  lemma BlankStep(b: Backlog, x: nat, y: nat)
    requires AllAccepted(b)
    ensures Paints(b.(dirty := true), x, y) == if Paints(b, x, y).Some? then Paints(b, x, y) else Some(Pad)
  {
    hide Above, PixelAt;
    if b.frames != [] {
      assert b.frames[|b.frames| - 1] in b.frames;
    }
  }

  lemma NothingArrived(s: Spot, x: nat, y: nat)
    ensures Written(s, [], x, y) == Paints(s.backlog, x, y)
  {
  }

  /** Something is queued only where something was written or a tab change was seen. */
  lemma {:induction false} QueuedWasWritten(s: Spot, ops: seq<Op>, x: nat, y: nat)
    requires AllAccepted(s.backlog)
    ensures Paints(Run(s, ops, x, y).backlog, x, y).Some? ==> Written(s, ops, x, y).Some? || Blank in ops
  {
    hide Writes, Paints, Enqueue, Written;
    if ops == [] {
      NothingArrived(s, x, y);
    } else {
      var init, op := ops[..|ops| - 1], ops[|ops| - 1];
      assert ops == init + [op];
      QueuedWasWritten(s, init, x, y);
      WrittenStep(s, init, op, x, y);
      CleanPaintsNothing(x, y);
      if op.Arrive? {
        EnqueuePaints(Run(s, init, x, y).backlog, op.ev, x, y);
      }
    }
  }

  /** With `look` shown at first, `last` the last write, `since` the last one after a tab change, and `written` what the
      queue and the writes put there: the pixel may end as `l`. */
  predicate MayBe(moved: bool, look: Option<Pixel>, last: Option<Pixel>, since: Option<Pixel>,
                  written: Option<Pixel>, l: Option<Pixel>)
  {
    if !moved then l == Over(look, last)
    else if since.Some? then l == since
    else l == Some(Pad) || (written.Some? && l == written)
  }

  /** What `evs` may leave at (x, y): without a tab change, its last write; with writes after the last tab change,
      the last of them; otherwise padding, or what was written before. */
  ghost predicate MayLeave(s: Spot, evs: seq<Op>, l: Option<Pixel>, x: nat, y: nat) {
    MayBe(Blank in evs, Look(s, x, y), LastWrite(Arrivals(evs), x, y), Since(evs, x, y), Written(s, evs, x, y), l)
  }

  lemma MoreWritten(moved: bool, look: Option<Pixel>, last: Option<Pixel>, since: Option<Pixel>,
                    written: Option<Pixel>, l: Option<Pixel>, w: Option<Pixel>)
    requires MayBe(moved, look, last, since, written, l)
    ensures MayBe(moved, look, Over(last, w), Over(since, w), Over(written, w), Over(l, w))
  {
  }

  lemma BlankOutcome(s: Spot, init: seq<Op>, x: nat, y: nat)
    requires AllAccepted(s.backlog) && MayLeave(s, init, Look(Run(s, init, x, y), x, y), x, y)
    ensures MayLeave(s, init + [Blank], Look(Run(s, init + [Blank], x, y), x, y), x, y)
  {
    hide Run, Paints;
    var s1 := Run(s, init, x, y);
    RunKeepsAccepted(s, init, x, y);
    BlankStep(s1.backlog, x, y);
    Appended(s, init, Blank, x, y);
    QueuedWasWritten(s, init, x, y);
    SinceIsLast(init, x, y);
    assert (init + [Blank])[|init|] == Blank;
    assert Arrivals(init) + [] == Arrivals(init);
  }

  lemma ArriveLook(s: Spot, ev: RenderEvent, x: nat, y: nat)
    ensures Look(Do(s, Arrive(ev), x, y), x, y) == Over(Look(s, x, y), Writes(ev, x, y))
  {
    hide Paints, Enqueue, Writes;
    EnqueuePaints(s.backlog, ev, x, y);
  }

  lemma ArriveOutcome(s: Spot, init: seq<Op>, ev: RenderEvent, x: nat, y: nat)
    requires MayLeave(s, init, Look(Run(s, init, x, y), x, y), x, y)
    ensures MayLeave(s, init + [Arrive(ev)], Look(Run(s, init + [Arrive(ev)], x, y), x, y), x, y)
  {
    hide Run, Look, Do, Writes, Written, MayBe, LastWrite;
    var l, w, ops := Look(Run(s, init, x, y), x, y), Writes(ev, x, y), init + [Arrive(ev)];
    Appended(s, init, Arrive(ev), x, y);
    ArriveLook(Run(s, init, x, y), ev, x, y);
    WrittenStep(s, init, Arrive(ev), x, y);
    LastWriteAppend(Arrivals(init), ev, x, y);
    assert ops[..|init|] == init && ops[|init|] == Arrive(ev);
    MoreWritten(Blank in init, Look(s, x, y), LastWrite(Arrivals(init), x, y), Since(init, x, y),
                Written(s, init, x, y), l, w);
  }

  lemma RenderLook(s: Spot, x: nat, y: nat)
    ensures Look(Do(s, Render, x, y), x, y) == Look(s, x, y)
  {
    hide Paints;
    CleanPaintsNothing(x, y);
  }

  lemma RenderOutcome(s: Spot, init: seq<Op>, x: nat, y: nat)
    requires MayLeave(s, init, Look(Run(s, init, x, y), x, y), x, y)
    ensures MayLeave(s, init + [Render], Look(Run(s, init + [Render], x, y), x, y), x, y)
  {
    hide Run, Look, Do, Writes, Written, MayBe, LastWrite;
    var ops := init + [Render];
    Appended(s, init, Render, x, y);
    RenderLook(Run(s, init, x, y), x, y);
    WrittenStep(s, init, Render, x, y);
    assert ops[..|init|] == init && ops[|init|] == Render;
    assert Arrivals(init) + [] == Arrivals(init);
  }

  lemma NothingLeft(s: Spot, x: nat, y: nat)
    ensures MayLeave(s, [], Look(s, x, y), x, y)
  {
  }

  /** Wherever the passes come, a final one shows something `ops` may leave. */
  lemma {:induction false} Outcome(s: Spot, ops: seq<Op>, x: nat, y: nat)
    requires AllAccepted(s.backlog)
    ensures MayLeave(s, ops, Look(Run(s, ops, x, y), x, y), x, y)
  {
    hide MayLeave, Look, AllAccepted, Do;
    if ops == [] {
      NothingLeft(s, x, y);
    } else {
      var init, op := ops[..|ops| - 1], ops[|ops| - 1];
      assert ops == init + [op];
      Outcome(s, init, x, y);
      match op {
        case Arrive(ev) => ArriveOutcome(s, init, ev, x, y);
        case Blank => BlankOutcome(s, init, x, y);
        case Render => RenderOutcome(s, init, x, y);
      }
    }
  }

  // ─── When the schedule matters ───────────────────────────────────────────

  /** The same operations without the passes. */
  function Unrendered(ops: seq<Op>): seq<Op> {
    if ops == [] then []
    else Unrendered(ops[..|ops| - 1]) + if ops[|ops| - 1].Render? then [] else [ops[|ops| - 1]]
  }

  lemma {:induction false} UnrenderedConcat(a: seq<Op>, b: seq<Op>)
    ensures Unrendered(a + b) == Unrendered(a) + Unrendered(b)
    decreases |b|
  {
    if b == [] {
      assert a + b == a;
    } else {
      UnrenderedConcat(a, b[..|b| - 1]);
      assert (a + b)[..|a + b| - 1] == a + b[..|b| - 1];
    }
  }

  lemma {:induction false} UnrenderedSame(evs: seq<Op>)
    requires Render !in evs
    ensures Unrendered(evs) == evs
  {
    if evs != [] {
      UnrenderedSame(evs[..|evs| - 1]);
    }
  }

  /** Passes neither write nor change tabs. */
  lemma {:induction false} UnrenderedKeeps(ops: seq<Op>, x: nat, y: nat)
    ensures Arrivals(Unrendered(ops)) == Arrivals(ops)
    ensures Since(Unrendered(ops), x, y) == Since(ops, x, y)
    ensures Blank in Unrendered(ops) <==> Blank in ops
  {
    hide Writes;
    if ops != [] {
      var init, op := ops[..|ops| - 1], ops[|ops| - 1];
      UnrenderedKeeps(init, x, y);
      assert ops == init + [op];
      if op.Render? {
        assert Unrendered(init) + [] == Unrendered(init);
        assert Arrivals(init) + [] == Arrivals(init);
      } else {
        assert (Unrendered(init) + [op])[..|Unrendered(init)|] == Unrendered(init);
      }
    }
  }

  /** Without any pass, what was written is what a first pass shows; where nothing was, a tab change pads. */
  lemma {:induction false} UnrenderedPaints(s: Spot, evs: seq<Op>, x: nat, y: nat)
    requires AllAccepted(s.backlog) && Render !in evs
    ensures Run(s, evs, x, y).shown == s.shown
    ensures Paints(Run(s, evs, x, y).backlog, x, y)
         == if Written(s, evs, x, y).Some? then Written(s, evs, x, y) else if Blank in evs then Some(Pad) else None
  {
    hide Writes, Paints, Enqueue, Written, AllAccepted;
    if evs == [] {
      NothingArrived(s, x, y);
    } else {
      var init, op := evs[..|evs| - 1], evs[|evs| - 1];
      assert evs == init + [op];
      UnrenderedPaints(s, init, x, y);
      WrittenStep(s, init, op, x, y);
      RunKeepsAccepted(s, init, x, y);
      if op.Arrive? {
        EnqueuePaints(Run(s, init, x, y).backlog, op.ev, x, y);
      } else {
        BlankStep(Run(s, init, x, y).backlog, x, y);
      }
    }
  }

  lemma {:induction false} BlankSplit(evs: seq<Op>) returns (a: seq<Op>, b: seq<Op>)
    requires Blank in evs
    ensures evs == a + [Blank] + b && Blank !in b
  {
    var n := |evs| - 1;
    if evs[n] == Blank {
      a, b := evs[..n], [];
    } else {
      a, b := BlankSplit(evs[..n]);
      b := b + [evs[n]];
    }
  }

  lemma {:induction false} SinceBlank(a: seq<Op>, b: seq<Op>, x: nat, y: nat)
    requires Blank !in b
    ensures Since(a + [Blank] + b, x, y) == LastWrite(Arrivals(b), x, y)
    decreases |b|
  {
    hide Writes;
    var ops := a + [Blank] + b;
    if b == [] {
      assert ops[|ops| - 1] == Blank;
    } else {
      var init, op := b[..|b| - 1], b[|b| - 1];
      SinceBlank(a, init, x, y);
      assert ops[..|ops| - 1] == a + [Blank] + init && ops[|ops| - 1] == op;
      if op.Arrive? {
        LastWriteAppend(Arrivals(init), op.ev, x, y);
      } else {
        assert Arrivals(init) + [] == Arrivals(init);
      }
    }
  }

  lemma PassAdded(a: seq<Op>, b: seq<Op>)
    requires Render !in a && Render !in b
    ensures Unrendered(a + [Render] + [Blank] + b) == a + [Blank] + b
  {
    UnrenderedConcat(a + [Render] + [Blank], b);
    UnrenderedConcat(a + [Render], [Blank]);
    UnrenderedConcat(a, [Render]);
    UnrenderedSame(a);
    UnrenderedSame(b);
    UnrenderedSame([Blank]);
    assert Unrendered([Render]) == [] by {
      assert [Render][..0] == [];
    }
    assert a + [] == a;
  }

  lemma PadAfterPass(s: Spot, a: seq<Op>, b: seq<Op>, x: nat, y: nat)
    requires Blank !in b && LastWrite(Arrivals(b), x, y).None?
    ensures Look(Run(s, a + [Render] + [Blank] + b, x, y), x, y) == Some(Pad)
  {
    hide Run, Paints, LastWrite;
    Appended(s, a, Render, x, y);
    Appended(s, a + [Render], Blank, x, y);
    RunConcat(s, a + [Render] + [Blank], b, x, y);
    BlankStep(CLEAN, x, y);
    CleanPaintsNothing(x, y);
    BatchingIrrelevant(Run(s, a + [Render] + [Blank], x, y), b, x, y);
  }

  /** A pass just before the last tab change leaves padding. */
  lemma PassBeforeBlank(s: Spot, evs: seq<Op>, x: nat, y: nat) returns (ops: seq<Op>)
    requires Blank in evs && Render !in evs && Since(evs, x, y).None?
    ensures Unrendered(ops) == evs && Look(Run(s, ops, x, y), x, y) == Some(Pad)
  {
    hide Run, Look, LastWrite, Since;
    var a, b := BlankSplit(evs);
    SinceBlank(a, b, x, y);
    PassAdded(a, b);
    PadAfterPass(s, a, b, x, y);
    ops := a + [Render] + [Blank] + b;
  }

  /** When the passes do not matter at (x, y): no tab change, or something was written since the last one, or nothing
      was written at all, or padding last. */
  ghost predicate Settled(s: Spot, evs: seq<Op>, x: nat, y: nat) {
    || Blank !in evs || Since(evs, x, y).Some?
    || Written(s, evs, x, y).None? || Written(s, evs, x, y) == Some(Pad)
  }

  ghost predicate SameUnderAll(s: Spot, evs: seq<Op>, x: nat, y: nat) {
    forall ops :: Unrendered(ops) == evs ==> Look(Run(s, ops, x, y), x, y) == Look(Run(s, evs, x, y), x, y)
  }

  lemma SettledIsSame(s: Spot, evs: seq<Op>, ops: seq<Op>, x: nat, y: nat)
    requires AllAccepted(s.backlog) && Settled(s, evs, x, y) && Unrendered(ops) == evs
    ensures Look(Run(s, ops, x, y), x, y) == Look(Run(s, evs, x, y), x, y)
  {
    hide Run, Look, Paints, LastWrite, Since;
    Outcome(s, ops, x, y);
    Outcome(s, evs, x, y);
    UnrenderedKeeps(ops, x, y);
  }

  /** Exactly when the schedule of the passes leaves no trace at (x, y), for any events and tab changes. */
  lemma ScheduleIrrelevant(s: Spot, evs: seq<Op>, x: nat, y: nat)
    requires AllAccepted(s.backlog) && Render !in evs
    ensures SameUnderAll(s, evs, x, y) <==> Settled(s, evs, x, y)
  {
    hide Run, Paints, LastWrite, Since, Written, AllAccepted;
    if Settled(s, evs, x, y) {
      forall ops | Unrendered(ops) == evs
        ensures Look(Run(s, ops, x, y), x, y) == Look(Run(s, evs, x, y), x, y)
      {
        SettledIsSame(s, evs, ops, x, y);
      }
    } else {
      UnrenderedPaints(s, evs, x, y);
      var ops := PassBeforeBlank(s, evs, x, y);
    }
  }

  const SAMPLE := RenderEvent.Frame(GfxFrame(1, 1, 4, [1, 2, 3, 4]))

  /** With tab changes the schedule does matter: the same frame and the same tab change leave the frame on screen
      if painted together, and padding if a pass comes between them. */
  lemma BlankDependsOnSchedule(s: Spot)
    ensures Arrivals([Arrive(SAMPLE), Blank]) == Arrivals([Arrive(SAMPLE), Render, Blank])
    ensures Look(Run(s, [Arrive(SAMPLE), Blank], 0, 0), 0, 0) == Some(Bgra(1, 2, 3, 4))
    ensures Look(Run(s, [Arrive(SAMPLE), Render, Blank], 0, 0), 0, 0) == Some(Pad)
  {
    var first := [] + [Arrive(SAMPLE)];
    var a, b := first + [Blank], first + [Render] + [Blank];
    assert a == [Arrive(SAMPLE), Blank] && b == [Arrive(SAMPLE), Render, Blank];
    Appended(s, [], Arrive(SAMPLE), 0, 0);
    Appended(s, first, Blank, 0, 0);
    Appended(s, first, Render, 0, 0);
    Appended(s, first + [Render], Blank, 0, 0);
    assert Arrivals(first) + [] == Arrivals(first);
  }

  /** A full frame after the last tab change restores independence: whatever happened before it, only the frame
      and what follows it are seen. */
  lemma FrameSettles(s: Spot, before: seq<Op>, f: GfxFrame, after: seq<Op>, x: nat, y: nat)
    requires Accepted(RenderEvent.Frame(f)) && Blank !in after
    ensures Look(Run(Run(s, before + [Arrive(RenderEvent.Frame(f))], x, y), after, x, y), x, y)
         == Over(Writes(RenderEvent.Frame(f), x, y), LastWrite(Arrivals(after), x, y))
  {
    hide Run, PixelAt, LastWrite;
    var ops := before + [Arrive(RenderEvent.Frame(f))];
    var s1 := Do(Run(s, before, x, y), Arrive(RenderEvent.Frame(f)), x, y);
    Appended(s, before, Arrive(RenderEvent.Frame(f)), x, y);
    EnqueuePaints(Run(s, before, x, y).backlog, RenderEvent.Frame(f), x, y);
    BatchingIrrelevant(s1, after, x, y);
  }
}
