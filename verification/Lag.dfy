/** A lag report that is not answered: a run of the real host, from its start, that ends with everything delivered and
    an old frame on the subscriber's screen. */
module Lag {
  import opened Bytes
  import opened Wire
  import opened Screen
  import opened Host
  import opened Mirror
  import opened Fanout

  const OLD_FRAME: HostFrame := FrameData(1, 1, 1, 4, 0, [0, 0, 0, 0])
  const NEW_FRAME: HostFrame := FrameData(1, 1, 1, 4, 0, [1, 1, 1, 1])

  /** The first tab has shown `OLD_FRAME`; a page is loading; its first frame has arrived. */
  const OPENED := Host(map[1 := OLD_FRAME], map[1 := TabEntry([], NEW_TAB)], 1, {})
  const BEFORE := OPENED.(forceFull := {1})
  const AFTER := OPENED.(last := map[1 := NEW_FRAME])

  lemma OpenedArises()
    ensures Arises(OPENED)
  {
    hide Arises, IsUpdate;
    InitialArises([]);
    StepArises(Initial([]), NewFrame(OLD_FRAME), 0, OPENED, [FullFrame(0, OLD_FRAME)]);
  }

  lemma BeforeArises()
    ensures Arises(BEFORE)
  {
    hide Arises, ValidUtf8;
    OpenedArises();
    assert Step(OPENED, LoadChanged(1, Started), 0, BEFORE, [LoadState(0)]);
    StepArises(OPENED, LoadChanged(1, Started), 0, BEFORE, [LoadState(0)]);
  }

  /** The cursor changes: published for the active tab, but the host does not change. */
  const NOTE := CursorState(CursorShape.Default, 0, 0, 0)

  function Notes(n: nat): seq<Message> {
    seq(n, _ => NOTE)
  }

  lemma PushSingle(s: Subscriber, m: Message)
    ensures PushAll(s, [m]) == Push(s, m)
  {
    assert [m][..0] == [];
  }

  lemma NoteMoves(s: System)
    requires Reachable(s)
    ensures Reachable(System(s.host, Push(s.sub, NOTE)))
  {
    hide Reachable, WriterMoves;
    var s' := System(s.host, Push(s.sub, NOTE));
    PushSingle(s.sub, NOTE);
    assert Step(s.host, CursorChanged(s.host.active, CursorShape.Default), 0, s.host, [NOTE]);
    assert HostMoves(s, s');
    ReachNext(s, s');
  }

  lemma {:induction false} ReachFlood(s: System, n: nat)
    requires Reachable(s)
    ensures Reachable(System(s.host, PushAll(s.sub, Notes(n))))
  {
    hide Reachable, Push;
    if n > 0 {
      ReachFlood(s, n - 1);
      NoteMoves(System(s.host, PushAll(s.sub, Notes(n - 1))));
      assert Notes(n)[..n - 1] == Notes(n - 1);
    }
  }

  /** The messages pushed last are at the end of the queue, and every message is queued or pushed out. */
  lemma {:induction false} FloodQueue(s: Subscriber, n: nat)
    requires |s.queue| <= CAPACITY
    ensures var t := PushAll(s, Notes(n));
            && t.log == s.log && t.held == s.held && t.joined == s.joined
            && Min(n, CAPACITY) <= |t.queue| <= CAPACITY && |t.queue| + |t.dropped| == |s.queue| + |s.dropped| + n
            && forall i :: 0 <= i < |t.queue| && |t.queue| - n <= i ==> t.queue[i] == NOTE
  {
    if n > 0 {
      FloodQueue(s, n - 1);
      assert Notes(n)[..n - 1] == Notes(n - 1);
    }
  }

  lemma WriterTries(s: System)
    requires s.sub.joined && s.sub.held.Some?
    ensures WriterMoves(s, System(s.host, TryRecv(s.sub)))
  {
    hide TryRecv;
    assert WriterMovesAt(s, System(s.host, TryRecv(s.sub)), 0);
  }

  lemma {:induction false} ReachDrained(s: System)
    requires Reachable(s) && s.sub.joined && s.sub.dropped == []
    ensures Reachable(System(s.host, Emptied(s.sub)))
    decreases |s.sub.queue|, s.sub.held.Some?
  {
    hide Reachable, HostMoves, Supersedes;
    if s.sub.held.Some? {
      var next := System(s.host, TryRecv(s.sub));
      WriterTries(s);
      ReachNext(s, next);
      ReachDrained(next);
    }
  }

  lemma {:induction false} CoalesceQuiet(item: Message, rest: seq<Message>)
    requires IsQuiet(item) && forall m :: m in rest ==> IsQuiet(m)
    ensures forall m :: m in Coalesce(item, rest) ==> IsQuiet(m)
    decreases |rest|
  {
    if rest != [] {
      CoalesceQuiet(rest[0], rest[1..]);
    }
  }

  /** Joined and holding one message. */
  lemma StaleStart() returns (s: Subscriber)
    ensures Reachable(System(BEFORE, s)) && Sent(s) == [FullFrame(0, OLD_FRAME)] && s.held == Some(NOTE)
    ensures s.joined && s.queue == [] && s.dropped == []
  {
    hide Reachable, HostMoves, Arises;
    BeforeArises();
    var start := Subscribed(BEFORE, 0);
    ReachStart(BEFORE, 0);
    var joined := Join(start, BEFORE, 0);
    MarkedLog(SnapshotSeq(BEFORE, 0), true);
    assert WriterMovesAt(System(BEFORE, start), System(BEFORE, joined), 0);
    ReachNext(System(BEFORE, start), System(BEFORE, joined));
    NoteMoves(System(BEFORE, joined));
    var queued := Push(joined, NOTE);
    s := queued.(held := Some(NOTE), queue := []);
    assert WriterMovesAt(System(BEFORE, queued), System(BEFORE, s), 0);
    ReachNext(System(BEFORE, queued), System(BEFORE, s));
  }

  lemma NewFrameMoves(s: Subscriber)
    requires Reachable(System(BEFORE, s))
    ensures Reachable(System(AFTER, Push(s, FullFrame(0, NEW_FRAME))))
  {
    hide Reachable, WriterMoves, FullFrame, IsUpdate, ValidUtf8;
    var full := FullFrame(0, NEW_FRAME);
    PushSingle(s, full);
    assert Step(BEFORE, NewFrame(NEW_FRAME), 0, AFTER, [full]);
    assert HostMoves(System(BEFORE, s), System(AFTER, Push(s, full)));
    ReachNext(System(BEFORE, s), System(AFTER, Push(s, full)));
  }

  /** A new frame, then enough notes to push it out of the queue unseen. */
  lemma StaleQueue() returns (s: Subscriber)
    ensures Reachable(System(AFTER, s)) && Sent(s) == [FullFrame(0, OLD_FRAME)] && s.held == Some(NOTE)
    ensures s.joined && s.dropped != [] && |s.queue| == CAPACITY && forall m :: m in s.queue ==> IsQuiet(m)
  {
    hide Reachable, PushAll, Delivered, FullFrame;
    var start := StaleStart();
    NewFrameMoves(start);
    var framed := Push(start, FullFrame(0, NEW_FRAME));
    ReachFlood(System(AFTER, framed), CAPACITY);
    FloodQueue(framed, CAPACITY);
    s := PushAll(framed, Notes(CAPACITY));
  }

  /** The report is swallowed and the rest is drained. */
  lemma StaleEnd() returns (s: Subscriber, quiet: seq<Message>)
    ensures Reachable(System(AFTER, s)) && CaughtUp(s)
    ensures Sent(s) == [FullFrame(0, OLD_FRAME)] + quiet && forall m :: m in quiet ==> IsQuiet(m)
  {
    hide Reachable, Emptied, Supersedes, FullFrame, Delivered, All, Marked;
    var flooded := StaleQueue();
    WriterTries(System(AFTER, flooded));
    var tried := TryRecv(flooded);
    ReachNext(System(AFTER, flooded), System(AFTER, tried));
    LogGrows(flooded, NOTE);
    LogConcat(flooded.log + [Entry(NOTE, true)], Marked(flooded.dropped, false));
    MarkedLog(flooded.dropped, false);
    var again := Recv(tried, AFTER, 0);
    assert WriterMovesAt(System(AFTER, tried), System(AFTER, again), 0);
    ReachNext(System(AFTER, tried), System(AFTER, again));
    ReachDrained(System(AFTER, again));
    DrainIsCoalesce(again);
    var rest := Coalesce(tried.queue[0], tried.queue[1..]);
    CoalesceQuiet(tried.queue[0], tried.queue[1..]);
    LogConcat(again.log, Marked(rest, true));
    MarkedLog(rest, true);
    s := Emptied(again);
    quiet := [NOTE] + rest;
  }

  lemma ReachableExactly(s: System)
    requires Reachable(s) && CaughtUp(s.sub)
    ensures Mirrors(Sent(s.sub), s.host) <==> !Stale(s.sub.log, s.host)
  {
    hide IsRun, Mirrors, Stale;
    var run := RunTo(s);
    MirrorsExactly(run, |run| - 1);
  }

  lemma OldShows(quiet: seq<Message>)
    requires forall m :: m in quiet ==> IsQuiet(m)
    ensures Shows([FullFrame(0, OLD_FRAME)] + quiet, 0, 0) == Some(Bgra(0, 0, 0, 0))
  {
    hide Shows, FullFrame, IsQuiet;
    QuietShows([FullFrame(0, OLD_FRAME)], quiet, 0, 0);
    ShowsOne(FullFrame(0, OLD_FRAME), 0, 0);
    FullEffect(0, OLD_FRAME, 0, 0);
  }

  lemma NewMirrored(ms: seq<Message>)
    requires Mirrors(ms, AFTER)
    ensures Shows(ms, 0, 0) == Some(Bgra(1, 1, 1, 1))
  {
    hide Shows;
    var p := PixelAt(NEW_FRAME.pixels, NEW_FRAME.stride, 0, 0);
    assert Shows(ms, 0, 0) == Some(p);
  }

  lemma OldIsStale(quiet: seq<Message>)
    requires forall m :: m in quiet ==> IsQuiet(m)
    ensures !Mirrors([FullFrame(0, OLD_FRAME)] + quiet, AFTER)
  {
    hide Shows, FullFrame, Mirrors, IsQuiet;
    OldShows(quiet);
    if Mirrors([FullFrame(0, OLD_FRAME)] + quiet, AFTER) {
      NewMirrored([FullFrame(0, OLD_FRAME)] + quiet);
    }
  }

  /** A lag report swallowed inside the drain loses the resynchronisation: some run of a new host ends with everything
      delivered and nothing under way, and the subscriber still shows an old frame. */
  lemma SwallowedLag()
    ensures exists s :: Reachable(s) && CaughtUp(s.sub) && Stale(s.sub.log, s.host) && !Mirrors(Sent(s.sub), s.host)
  {
    hide Reachable, Stale, Mirrors, FullFrame, Delivered;
    var s, quiet := StaleEnd();
    OldIsStale(quiet);
    ReachableExactly(System(AFTER, s));
    assert System(AFTER, s).sub == s;
  }
}
