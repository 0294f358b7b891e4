/** Delivering published messages to one subscriber: the bounded broadcast queue, the coalescing writer, and
    resynchronisation by snapshot. */
module Fanout {
  import opened Bytes
  import opened Wire
  import opened Screen
  import opened Host
  import opened Mirror
  import Diff
  import PixelPayload

  // ─── Coalescing ──────────────────────────────────────────────────────────

  /** The newer rectangle contains the older one. */
  predicate Covers(newer: Message, older: Message)
    requires newer.Subframe? && older.Subframe?
  {
    && newer.x <= older.x && newer.y <= older.y
    && newer.x + newer.w >= older.x + older.w
    && newer.y + newer.h >= older.y + older.h
  }

  /** The writer drops `older` in favour of `newer`. */
  predicate Supersedes(newer: Message, older: Message) {
    || ((older.RawFrame? || older.Subframe?) && newer.RawFrame?)
    || (older.Subframe? && newer.Subframe? && Covers(newer, older))
  }

  /** The client will not refuse the frame in `m`. */
  predicate IsDrawn(m: Message) {
    IsQuiet(m) || Accepted(FromProto(m).value)
  }

  /** What the host publishes: frames the client will accept, whose rows hold all their pixels and nothing more,
      compressed as the host does it; no tiles and no new tabs. */
  predicate IsSound(m: Message) {
    && IsDrawn(m) && !m.TileData? && !m.TabCreated?
    && (!IsQuiet(m) ==> Regular(FromProto(m).value) && |m.pixels| == PixelBytes(m.stride, m.h))
    && (m.RawFrame? ==> m.compression == PixelPayload.ZSTD)
    && (m.Subframe? ==> m.compression == CompressionFor(m.w * m.h))
  }

  /** Dropping a superseded message is invisible exactly when the newer one is drawn or the older is not. */
  lemma SupersedeInvisible(older: Message, newer: Message)
    requires Supersedes(newer, older)
    ensures (forall x, y :: Over(Effect(older, x, y), Effect(newer, x, y)) == Effect(newer, x, y))
            <==> IsDrawn(newer) || !IsDrawn(older)
  {
    hide PixelAt;
    if IsDrawn(older) && !IsDrawn(newer) {
      var x, y := if older.Subframe? then older.x else 0, if older.Subframe? then older.y else 0;
      assert Effect(older, x, y).Some? && Effect(newer, x, y).None?;
    }
  }

  /** The writer's output for the message it holds and the queue behind it. */
  function Coalesce(item: Message, rest: seq<Message>): seq<Message>
    decreases |rest|
  {
    if rest == [] then [item]
    else if Supersedes(rest[0], item) then Coalesce(rest[0], rest[1..])
    else [item] + Coalesce(rest[0], rest[1..])
  }

  // ─── Which messages are sent ─────────────────────────────────────────────

  /** Increasing positions. */
  predicate Increasing(at: seq<nat>) {
    forall i, j :: 0 <= i < j < |at| ==> at[i] < at[j]
  }

  /** Message `i` of the queue is followed by one that makes it superfluous: a frame by a whole frame, or a subframe by
      one whose rectangle contains its own. */
  predicate Superfluous(queue: seq<Message>, i: nat) {
    i + 1 < |queue| &&
    match (queue[i], queue[i + 1])
    case (RawFrame(_, _, _, _, _, _, _), RawFrame(_, _, _, _, _, _, _)) => true
    case (Subframe(_, _, _, _, _, _, _, _, _), RawFrame(_, _, _, _, _, _, _)) => true
    case (Subframe(_, x, y, w, h, _, _, _, _), Subframe(_, x', y', w', h', _, _, _, _)) =>
      x' <= x && x + w <= x' + w' && y' <= y && y + h <= y' + h'
    case _ => false
  }

  /** `sent` holds, in order, exactly the messages of the queue at which nothing makes them superfluous. */
  ghost predicate SendsAt(queue: seq<Message>, sent: seq<Message>, at: seq<nat>) {
    && |at| == |sent| && Increasing(at)
    && (forall k :: 0 <= k < |at| ==> at[k] < |queue| && sent[k] == queue[at[k]])
    && forall i: nat :: i in at <==> i < |queue| && !Superfluous(queue, i)
  }

  lemma SuperfluousIff(queue: seq<Message>, i: nat)
    requires i < |queue|
    ensures Superfluous(queue, i) <==> i + 1 < |queue| && Supersedes(queue[i + 1], queue[i])
  {
  }

  lemma NoneBehind(queue: seq<Message>, i: nat)
    requires i + 1 >= |queue|
    ensures !Superfluous(queue, i)
  {
  }

  lemma SuperfluousTail(queue: seq<Message>, i: nat)
    requires 0 < i < |queue|
    ensures Superfluous(queue, i) <==> Superfluous(queue[1..], i - 1)
  {
    hide Supersedes, Superfluous;
    SuperfluousIff(queue, i);
    SuperfluousIff(queue[1..], i - 1);
  }

  function Shifted(at: seq<nat>): (r: seq<nat>)
    ensures |r| == |at| && forall k :: 0 <= k < |at| ==> r[k] == at[k] + 1
  {
    seq(|at|, k requires 0 <= k < |at| => at[k] + 1)
  }

  lemma InShifted(at: seq<nat>, i: nat)
    ensures i in Shifted(at) <==> i > 0 && i - 1 in at
  {
    var r := Shifted(at);
    if i > 0 && i - 1 in at {
      var k :| 0 <= k < |at| && at[k] == i - 1;
      assert r[k] == i;
    }
    if i in r {
      var k :| 0 <= k < |r| && r[k] == i;
      assert at[k] == i - 1;
    }
  }

  lemma SendsLater(queue: seq<Message>, sent: seq<Message>, at: seq<nat>)
    requires queue != [] && SendsAt(queue[1..], sent, at)
    ensures Increasing(Shifted(at))
    ensures forall k :: 0 <= k < |at| ==> Shifted(at)[k] < |queue| && sent[k] == queue[Shifted(at)[k]]
    ensures forall i: nat :: i in Shifted(at) <==> 0 < i < |queue| && !Superfluous(queue, i)
  {
    hide Superfluous, Shifted;
    forall i: nat
      ensures i in Shifted(at) <==> 0 < i < |queue| && !Superfluous(queue, i)
    {
      InShifted(at, i);
      if 0 < i < |queue| {
        SuperfluousTail(queue, i);
      }
    }
  }

  lemma SendsFirst(queue: seq<Message>, sent: seq<Message>, rest: seq<nat>)
    requires queue != [] && !Superfluous(queue, 0) && |rest| == |sent| && Increasing(rest)
    requires forall k :: 0 <= k < |rest| ==> rest[k] < |queue| && sent[k] == queue[rest[k]]
    requires forall i: nat :: i in rest <==> 0 < i < |queue| && !Superfluous(queue, i)
    ensures SendsAt(queue, [queue[0]] + sent, [0] + rest)
  {
    hide Superfluous;
    forall k | 0 <= k < |rest|
      ensures rest[k] > 0
    {
      assert rest[k] in rest;
    }
  }

  /** The writer sends exactly the messages that the next one does not make superfluous. */
  lemma {:induction false} SendsExactly(queue: seq<Message>) returns (at: seq<nat>)
    requires queue != []
    ensures SendsAt(queue, Coalesce(queue[0], queue[1..]), at)
  {
    hide Supersedes, Superfluous, Shifted;
    SuperfluousIff(queue, 0);
    if |queue| == 1 {
      at := [0];
    } else {
      assert queue[1..][0] == queue[1] && queue[1..][1..] == queue[2..];
      at := SendsExactly(queue[1..]);
      SendsLater(queue, Coalesce(queue[1], queue[2..]), at);
      at := Shifted(at);
      if !Superfluous(queue, 0) {
        SendsFirst(queue, Coalesce(queue[1], queue[2..]), at);
        at := [0] + at;
      }
    }
  }

  /** A stale whole frame is never sent: of a queue of whole frames only the last one is. */
  lemma {:induction false} OnlyLastFrame(queue: seq<Message>)
    requires queue != [] && forall m :: m in queue ==> m.RawFrame?
    ensures Coalesce(queue[0], queue[1..]) == [queue[|queue| - 1]]
  {
    if |queue| > 1 {
      assert queue[1..][0] == queue[1] && queue[1..][1..] == queue[2..];
      OnlyLastFrame(queue[1..]);
    }
  }

  lemma SentFirst(sent: seq<Message>, item: Message, out: seq<Message>)
    ensures sent + ([item] + out) == (sent + [item]) + out
  {
  }

  /** The writer loop over everything queued. */
  method DrainCoalescing(queue: seq<Message>) returns (sent: seq<Message>)
    requires queue != []
    ensures sent == Coalesce(queue[0], queue[1..])
    ensures exists at :: SendsAt(queue, sent, at)
    ensures (forall m :: m in queue ==> m.RawFrame?) ==> sent == [queue[|queue| - 1]]
  {
    hide Supersedes, SendsAt;
    sent := [];
    var item, rest := queue[0], queue[1..];
    assert [] + Coalesce(item, rest) == Coalesce(item, rest);
    while rest != []
      invariant sent + Coalesce(item, rest) == Coalesce(queue[0], queue[1..])
      decreases |rest|
    {
      var newer := rest[0];
      rest := rest[1..];
      if !Supersedes(newer, item) {
        SentFirst(sent, item, Coalesce(newer, rest));
        sent := sent + [item];
      }
      item := newer;
    }
    sent := sent + [item];
    ghost var at := SendsExactly(queue);
    if forall m :: m in queue ==> m.RawFrame? {
      OnlyLastFrame(queue);
    }
  }

  /** Two messages that are sent one after the other, although the second would have made the first superfluous: at the
      time, the first was followed by one that was itself dropped later. */
  ghost predicate LeftBehind(queue: seq<Message>, i: nat, j: nat) {
    && i < j < |queue| && !Superfluous(queue, i) && !Superfluous(queue, j)
    && (forall k :: i < k < j ==> Superfluous(queue, k))
    && Superfluous([queue[i], queue[j]], 0)
  }

  lemma SuperfluousPair(queue: seq<Message>, i: nat)
    ensures Superfluous(queue, i) <==> i + 1 < |queue| && Superfluous([queue[i], queue[i + 1]], 0)
  {
    hide Supersedes, Superfluous;
    if i + 1 < |queue| {
      SuperfluousIff(queue, i);
      SuperfluousIff([queue[i], queue[i + 1]], 0);
    } else {
      NoneBehind(queue, i);
    }
  }

  lemma Between(queue: seq<Message>, sent: seq<Message>, at: seq<nat>, k: nat, i: nat)
    requires SendsAt(queue, sent, at) && k + 1 < |at| && at[k] < i < at[k + 1]
    ensures Superfluous(queue, i)
  {
    hide Superfluous;
    forall j | 0 <= j < |at|
      ensures at[j] != i
    {
      assert j <= k ==> at[j] <= at[k];
      assert j > k ==> at[j] >= at[k + 1];
    }
    assert i !in at;
  }

  lemma Consecutive(queue: seq<Message>, sent: seq<Message>, at: seq<nat>, i: nat, j: nat) returns (k: nat)
    requires SendsAt(queue, sent, at) && i < j && i in at && j in at
    requires forall k :: i < k < j ==> Superfluous(queue, k)
    ensures k + 1 < |at| == |sent| && at[k] == i && at[k + 1] == j
  {
    hide Superfluous;
    k :| 0 <= k < |at| && at[k] == i;
    var l :| 0 <= l < |at| && at[l] == j;
    forall m | 0 <= m < |at|
      ensures !Superfluous(queue, at[m])
    {
      assert at[m] in at;
    }
  }

  lemma SentAt(queue: seq<Message>, sent: seq<Message>, at: seq<nat>, i: nat)
    requires SendsAt(queue, sent, at)
    ensures i in at <==> i < |queue| && !Superfluous(queue, i)
  {
  }

  lemma SentPair(queue: seq<Message>, sent: seq<Message>, at: seq<nat>, k: nat)
    requires SendsAt(queue, sent, at) && k + 1 < |sent|
    ensures |at| == |sent| && at[k] < at[k + 1] < |queue|
    ensures sent[k] == queue[at[k]] && sent[k + 1] == queue[at[k + 1]]
    ensures !Superfluous(queue, at[k]) && !Superfluous(queue, at[k + 1])
    ensures forall i :: at[k] < i < at[k + 1] ==> Superfluous(queue, i)
  {
    hide Superfluous;
    assert at[k] in at && at[k + 1] in at;
    forall i | at[k] < i < at[k + 1]
      ensures Superfluous(queue, i)
    {
      Between(queue, sent, at, k, i);
    }
  }

  /** The next message sent may well make the one before superfluous: exactly when the queue leaves it behind. */
  lemma SentSuperfluous(queue: seq<Message>, sent: seq<Message>)
    requires queue != [] && sent == Coalesce(queue[0], queue[1..])
    ensures (exists k: nat :: Superfluous(sent, k)) <==> exists i: nat, j: nat :: LeftBehind(queue, i, j)
  {
    hide Superfluous, Coalesce, SendsAt;
    var at := SendsExactly(queue);
    if k: nat :| Superfluous(sent, k) {
      SuperfluousPair(sent, k);
      SentPair(queue, sent, at, k);
      assert LeftBehind(queue, at[k], at[k + 1]);
    }
    if i: nat, j: nat :| LeftBehind(queue, i, j) {
      SentAt(queue, sent, at, i);
      SentAt(queue, sent, at, j);
      var k := Consecutive(queue, sent, at, i, j);
      SentPair(queue, sent, at, k);
      SuperfluousPair(sent, k);
    }
  }

  /** Only a subframe can leave a frame behind, and only one that is dropped itself. */
  lemma LeftBehindBySubframe(queue: seq<Message>, i: nat, j: nat)
    requires LeftBehind(queue, i, j)
    ensures i + 1 < j && queue[i + 1].Subframe? && Superfluous(queue, i + 1)
  {
    SuperfluousPair(queue, i);
    if i + 1 < j {
      assert Superfluous(queue, i + 1);
    }
  }

  /** It happens: a whole frame, any subframe and another whole frame send both whole frames. */
  lemma StaleFrameSent(a: Message, s: Message, b: Message)
    requires a.RawFrame? && s.Subframe? && b.RawFrame?
    ensures Coalesce(a, [s, b]) == [a, b]
  {
    assert [s, b][1..] == [b] && [b][1..] == [];
    assert Coalesce(s, [b]) == [b];
  }

  // ─── What coalescing keeps ───────────────────────────────────────────────

  ghost predicate IsSubsequence(a: seq<Message>, b: seq<Message>)
    decreases |b|
  {
    if a == [] then true
    else if b == [] then false
    else (a[0] == b[0] && IsSubsequence(a[1..], b[1..])) || IsSubsequence(a, b[1..])
  }

  lemma {:induction false} CoalesceSelects(item: Message, rest: seq<Message>)
    ensures IsSubsequence(Coalesce(item, rest), [item] + rest)
    decreases |rest|
  {
    hide Supersedes;
    if rest != [] {
      CoalesceSelects(rest[0], rest[1..]);
      assert [rest[0]] + rest[1..] == rest;
      assert ([item] + rest)[1..] == rest;
    }
  }

  /** The messages that are not frames, in order, each with what pixel (x, y) shows when it is handled. */
  function Views(ms: seq<Message>, before: Option<Pixel>, x: nat, y: nat): seq<(Message, Option<Pixel>)>
    decreases |ms|
  {
    if ms == [] then []
    else if IsQuiet(ms[0]) then [(ms[0], before)] + Views(ms[1..], before, x, y)
    else Views(ms[1..], Over(before, Effect(ms[0], x, y)), x, y)
  }

  lemma ShowsFront(m: Message, ms: seq<Message>, x: nat, y: nat)
    ensures Shows([m] + ms, x, y) == Over(Effect(m, x, y), Shows(ms, x, y))
  {
    hide Effect;
    ShowsConcat([m], ms, x, y);
    ShowsOne(m, x, y);
  }

  lemma SupersededView(older: Message, newer: Message, x: nat, y: nat)
    requires Supersedes(newer, older) && IsDrawn(newer)
    ensures !IsQuiet(newer) && !IsQuiet(older)
    ensures Over(Effect(older, x, y), Effect(newer, x, y)) == Effect(newer, x, y)
  {
    hide Effect, IsDrawn;
    SupersedeInvisible(older, newer);
  }

  /** Coalescing preserves meaning, for any queue of drawable frames: every other message is kept, in order,
      and finds the same picture; and the final picture is the same, whatever was shown before. */
  lemma {:induction false} CoalescePreserves(item: Message, rest: seq<Message>, before: Option<Pixel>, x: nat, y: nat)
    requires forall m :: m in [item] + rest ==> IsDrawn(m)
    ensures Views(Coalesce(item, rest), before, x, y) == Views([item] + rest, before, x, y)
    ensures Shows(Coalesce(item, rest), x, y) == Shows([item] + rest, x, y)
    decreases |rest|
  {
    hide Effect, IsQuiet, IsDrawn, Shows, Supersedes;
    if rest == [] {
      assert [item] + [] == [item];
    } else {
      var newer, tail := rest[0], rest[1..];
      assert [newer] + tail == rest && ([item] + rest)[1..] == rest;
      assert forall m :: m in [newer] + tail ==> m in [item] + rest;
      ShowsFront(item, rest, x, y);
      if Supersedes(newer, item) {
        CoalescePreserves(newer, tail, before, x, y);
        SupersededView(item, newer, x, y);
        ShowsFront(newer, tail, x, y);
      } else {
        var after := if IsQuiet(item) then before else Over(before, Effect(item, x, y));
        CoalescePreserves(newer, tail, after, x, y);
        var out := Coalesce(newer, tail);
        ShowsFront(item, out, x, y);
        assert ([item] + out)[1..] == out;
      }
    }
  }

  // ─── Losses ──────────────────────────────────────────────────────────────

  /** A message on its way to the client: delivered, or pushed out of the queue and given up. */
  datatype Entry = Entry(m: Message, delivered: bool)

  function Marked(ms: seq<Message>, delivered: bool): seq<Entry> {
    if ms == [] then [] else Marked(ms[..|ms| - 1], delivered) + [Entry(ms[|ms| - 1], delivered)]
  }

  function All(log: seq<Entry>): seq<Message> {
    if log == [] then [] else All(log[..|log| - 1]) + [log[|log| - 1].m]
  }

  function Delivered(log: seq<Entry>): seq<Message> {
    if log == [] then []
    else
      var e := log[|log| - 1];
      Delivered(log[..|log| - 1]) + if e.delivered then [e.m] else []
  }

  lemma {:induction false} LogConcat(a: seq<Entry>, b: seq<Entry>)
    ensures All(a + b) == All(a) + All(b) && Delivered(a + b) == Delivered(a) + Delivered(b)
    decreases |b|
  {
    if b == [] {
      assert a + b == a;
    } else {
      LogConcat(a, b[..|b| - 1]);
      assert (a + b)[..|a + b| - 1] == a + b[..|b| - 1];
    }
  }

  lemma {:induction false} MarkedLog(ms: seq<Message>, delivered: bool)
    ensures All(Marked(ms, delivered)) == ms
    ensures Delivered(Marked(ms, delivered)) == if delivered then ms else []
  {
    if ms != [] {
      MarkedLog(ms[..|ms| - 1], delivered);
    }
  }

  lemma LogEnd(log: seq<Entry>, x: nat, y: nat)
    requires log != []
    ensures var init, e := log[..|log| - 1], log[|log| - 1];
            && Shows(All(log), x, y) == Over(Shows(All(init), x, y), Effect(e.m, x, y))
            && Shows(Delivered(log), x, y)
               == if e.delivered then Over(Shows(Delivered(init), x, y), Effect(e.m, x, y))
                  else Shows(Delivered(init), x, y)
  {
    hide Effect, Shows;
    var init, e := log[..|log| - 1], log[|log| - 1];
    ShowsConcat(All(init), [e.m], x, y);
    ShowsConcat(Delivered(init), [e.m], x, y);
    ShowsOne(e.m, x, y);
    assert Delivered(init) + [] == Delivered(init);
  }

  /** Entry `j` was lost, nothing after it touches (x, y), and what it put there had not been delivered before. */
  ghost predicate LeavesStale(log: seq<Entry>, j: nat, x: nat, y: nat) {
    && j < |log| && !log[j].delivered && Effect(log[j].m, x, y).Some?
    && (forall k :: j < k < |log| ==> Effect(log[k].m, x, y).None?)
    && Shows(Delivered(log[..j]), x, y) != Effect(log[j].m, x, y)
  }

  lemma NothingStale(x: nat, y: nat)
    ensures Shows(Delivered([]), x, y) == Shows(All([]), x, y)
    ensures forall j: nat :: !LeavesStale([], j, x, y)
  {
  }

  ghost predicate StaleByStep(log: seq<Entry>, j: nat, x: nat, y: nat)
    requires log != []
  {
    var n := |log| - 1;
    var init, e := log[..n], log[n];
    if j < n then LeavesStale(init, j, x, y) && Effect(e.m, x, y).None?
    else j == n && !e.delivered && Effect(e.m, x, y).Some? && Shows(Delivered(init), x, y) != Effect(e.m, x, y)
  }

  lemma StaleStep(log: seq<Entry>, j: nat, x: nat, y: nat)
    requires log != []
    ensures LeavesStale(log, j, x, y) <==> StaleByStep(log, j, x, y)
    ensures j < |log| - 1 || !LeavesStale(log[..|log| - 1], j, x, y)
  {
    hide Effect, Shows, Delivered;
    var n := |log| - 1;
    if j < n {
      assert log[..n][..j] == log[..j];
      if LeavesStale(log[..n], j, x, y) && Effect(log[n].m, x, y).None? {
        forall k | j < k < |log|
          ensures Effect(log[k].m, x, y).None?
        {
          assert k < n ==> log[..n][k] == log[k];
        }
      }
      if LeavesStale(log, j, x, y) {
        forall k | j < k < n
          ensures Effect(log[..n][k].m, x, y).None?
        {
          assert log[..n][k] == log[k];
        }
      }
    }
  }

  /** Losing messages is invisible at (x, y) exactly when none of them leaves it stale. */
  lemma {:induction false} LossInvisible(log: seq<Entry>, x: nat, y: nat)
    ensures Shows(Delivered(log), x, y) == Shows(All(log), x, y) <==> forall j: nat :: !LeavesStale(log, j, x, y)
  {
    hide Effect, LeavesStale, Shows, All, Delivered;
    if log == [] {
      NothingStale(x, y);
    } else {
      var n := |log| - 1;
      var init, e := log[..n], log[n];
      LossInvisible(init, x, y);
      LogEnd(log, x, y);
      if Shows(Delivered(log), x, y) != Shows(All(log), x, y) {
        if Effect(e.m, x, y).Some? {
          StaleStep(log, n, x, y);
        } else {
          var j: nat :| LeavesStale(init, j, x, y);
          StaleStep(log, j, x, y);
        }
      } else {
        forall j: nat
          ensures !LeavesStale(log, j, x, y)
        {
          StaleStep(log, j, x, y);
        }
      }
    }
  }

  /** Every lost frame is followed by a delivered full frame. */
  predicate Healed(log: seq<Entry>) {
    if log == [] then true
    else
      var e := log[|log| - 1];
      if e.delivered && e.m.RawFrame? then true
      else if !e.delivered && !IsQuiet(e.m) then false
      else Healed(log[..|log| - 1])
  }

  lemma DrawnFrame(m: Message, x: nat, y: nat)
    requires m.RawFrame? && IsDrawn(m)
    ensures Effect(m, x, y).Some?
  {
    hide PixelAt;
  }

  lemma QuietEffect(m: Message, x: nat, y: nat)
    requires IsQuiet(m)
    ensures Effect(m, x, y).None?
  {
  }

  lemma {:induction false} HealedIsInvisible(log: seq<Entry>, x: nat, y: nat)
    requires Healed(log) && forall m :: m in Delivered(log) ==> IsDrawn(m)
    ensures Shows(Delivered(log), x, y) == Shows(All(log), x, y)
  {
    hide Effect, IsDrawn;
    if log != [] {
      var init, e := log[..|log| - 1], log[|log| - 1];
      LogEnd(log, x, y);
      if e.delivered && e.m.RawFrame? {
        assert e.m in Delivered(log);
        DrawnFrame(e.m, x, y);
      } else {
        HealedIsInvisible(init, x, y);
        if !e.delivered {
          QuietEffect(e.m, x, y);
        }
      }
    }
  }

  // ─── One subscriber ──────────────────────────────────────────────────────

  const CAPACITY := 256

  /** `hist` is what a subscriber that misses nothing has been shown: the picture when this one subscribed and
      everything published since. `log` is what went over the wire, with what was given up in between. The writer
      holds at most one message while it drains `queue`; `dropped` was pushed out of the full queue and has not
      been reported yet. */
  datatype Subscriber = Subscriber(
    hist: seq<Message>, log: seq<Entry>, held: Option<Message>, dropped: seq<Message>, queue: seq<Message>,
    joined: bool)

  function Sent(s: Subscriber): seq<Message> {
    Delivered(s.log)
  }

  function Held(s: Subscriber): seq<Message> {
    if s.held.Some? then [s.held.value] else []
  }

  /** Everything sent and still to be sent. */
  function Pipeline(s: Subscriber): seq<Message> {
    Sent(s) + (Held(s) + s.queue)
  }

  /** The same with everything that was pushed out of the queue. */
  function Whole(s: Subscriber): seq<Message> {
    All(s.log) + (Held(s) + (s.dropped + s.queue))
  }

  /** Both at once. */
  function Line(s: Subscriber): seq<Entry> {
    s.log + (Marked(Held(s), true) + (Marked(s.dropped, false) + Marked(s.queue, true)))
  }

  lemma LineParts(s: Subscriber)
    ensures All(Line(s)) == Whole(s) && Delivered(Line(s)) == Pipeline(s)
  {
    hide Marked, All, Delivered;
    var d, q := Marked(s.dropped, false), Marked(s.queue, true);
    LogConcat(s.log, Marked(Held(s), true) + (d + q));
    LogConcat(Marked(Held(s), true), d + q);
    LogConcat(d, q);
    MarkedLog(Held(s), true);
    MarkedLog(s.dropped, false);
    MarkedLog(s.queue, true);
    assert [] + s.queue == s.queue;
  }

  function SnapshotSeq(h: Host, ts: u64): seq<Message> {
    var m := SnapshotOf(h, ts);
    if m.Some? then [m.value] else []
  }

  function Subscribed(h: Host, ts: u64): Subscriber {
    Subscriber(SnapshotSeq(h, ts), [], None, [], [], false)
  }

  /** A full queue drops its oldest message. */
  function Push(s: Subscriber, m: Message): Subscriber {
    if |s.queue| >= CAPACITY
    then s.(hist := s.hist + [m], dropped := s.dropped + [s.queue[0]], queue := s.queue[1..] + [m])
    else s.(hist := s.hist + [m], queue := s.queue + [m])
  }

  function PushAll(s: Subscriber, msgs: seq<Message>): Subscriber {
    if msgs == [] then s else Push(PushAll(s, msgs[..|msgs| - 1]), msgs[|msgs| - 1])
  }

  /** The first thing the writer does. */
  function Join(s: Subscriber, h: Host, ts: u64): Subscriber {
    s.(log := Marked(SnapshotSeq(h, ts), true), joined := true)
  }

  /** `recv()`: lag is answered with a snapshot; otherwise the writer picks up the next message, if any. */
  function Recv(s: Subscriber, h: Host, ts: u64): Subscriber {
    if s.dropped != [] then s.(log := s.log + Marked(SnapshotSeq(h, ts), true), dropped := [])
    else if s.queue == [] then s
    else s.(held := Some(s.queue[0]), queue := s.queue[1..])
  }

  /** `try_recv()` while holding a message: any error, lag included, ends the drain; what was pushed out is
      given up. */
  function TryRecv(s: Subscriber): Subscriber
    requires s.held.Some?
  {
    var log := s.log + [Entry(s.held.value, true)];
    if s.dropped != [] then s.(log := log + Marked(s.dropped, false), held := None, dropped := [])
    else if s.queue == [] then s.(log := log, held := None)
    else if Supersedes(s.queue[0], s.held.value) then s.(held := Some(s.queue[0]), queue := s.queue[1..])
    else s.(log := log, held := Some(s.queue[0]), queue := s.queue[1..])
  }

  /** The active tab's last frame, whole, if there is one. */
  predicate IsSnapshot(h: Host, ts: u64, ms: seq<Message>) {
    if h.active !in h.last then ms == []
    else
      var f := h.last[h.active];
      ms == [RawFrame(ts, f.width, f.height, f.stride, f.format, 1, f.pixels)]
  }

  lemma LogGrows(s: Subscriber, m: Message)
    ensures var log := s.log + [Entry(m, true)];
            All(log) == All(s.log) + [m] && Delivered(log) == Delivered(s.log) + [m]
  {
    assert (s.log + [Entry(m, true)])[..|s.log|] == s.log;
  }

  /** What the writer puts on the wire when it starts, and when `recv` reports a loss: a snapshot, before what is still
      in the queue. When `try_recv` reports one it puts nothing there for it. */
  lemma WriterEffects(s: Subscriber, h: Host, ts: u64) returns (snapshot: seq<Message>)
    ensures IsSnapshot(h, ts, snapshot)
    ensures !s.joined && s.held.None? ==> Sent(Join(s, h, ts)) == snapshot && Join(s, h, ts).queue == s.queue
    ensures s.held.None? && s.dropped != [] ==>
              var t := Recv(s, h, ts);
              && Sent(t) == Sent(s) + snapshot && All(t.log) == All(s.log) + snapshot
              && t.dropped == [] && t.queue == s.queue
    ensures s.held.Some? && s.dropped != [] ==>
              var t := TryRecv(s);
              && Sent(t) == Sent(s) + [s.held.value] && All(t.log) == All(s.log) + [s.held.value] + s.dropped
              && t.held.None? && t.dropped == [] && t.queue == s.queue
  {
    hide Marked, Delivered, All;
    snapshot := SnapshotSeq(h, ts);
    MarkedLog(snapshot, true);
    LogConcat(s.log, Marked(snapshot, true));
    if s.held.Some? {
      var log := s.log + [Entry(s.held.value, true)];
      LogConcat(log, Marked(s.dropped, false));
      MarkedLog(s.dropped, false);
      LogGrows(s, s.held.value);
      assert Delivered(log) + [] == Delivered(log);
    }
  }

  function Emptied(s: Subscriber): Subscriber
    requires s.dropped == []
    decreases |s.queue|, s.held.Some?
  {
    if s.held.None? then s else Emptied(TryRecv(s))
  }

  lemma {:induction false} MarkedFront(m: Message, ms: seq<Message>)
    ensures Marked([m] + ms, true) == [Entry(m, true)] + Marked(ms, true)
    decreases |ms|
  {
    if ms == [] {
      assert [m] + ms == [m] && [m][..0] == [];
    } else {
      MarkedFront(m, ms[..|ms| - 1]);
      assert ([m] + ms)[..|ms|] == [m] + ms[..|ms| - 1];
    }
  }

  /** From the first message picked up to the last one written, with nothing arriving in between, the writer
      sends the coalesced queue. */
  lemma {:induction false} DrainIsCoalesce(s: Subscriber)
    requires s.held.Some? && s.dropped == []
    ensures Emptied(s) == s.(log := s.log + Marked(Coalesce(s.held.value, s.queue), true), held := None, queue := [])
    decreases |s.queue|
  {
    hide Supersedes;
    var item := s.held.value;
    if s.queue == [] {
      MarkedFront(item, []);
      assert Emptied(TryRecv(s)) == TryRecv(s);
    } else {
      DrainIsCoalesce(TryRecv(s));
      var out := Coalesce(s.queue[0], s.queue[1..]);
      MarkedFront(item, out);
      assert (s.log + [Entry(item, true)]) + Marked(out, true) == s.log + ([Entry(item, true)] + Marked(out, true));
    }
  }

  lemma MarkedSent(log: seq<Entry>, ms: seq<Message>)
    ensures Delivered(log + Marked(ms, true)) == Delivered(log) + ms
  {
    LogConcat(log, Marked(ms, true));
    MarkedLog(ms, true);
  }

  /** What the undisturbed writer adds to the wire: of the message it holds and the queue behind it, those that the next
      one does not make superfluous; of whole frames alone, only the last. */
  lemma EmptiedSends(s: Subscriber) returns (sent: seq<Message>, at: seq<nat>)
    requires s.held.Some? && s.dropped == []
    ensures Sent(Emptied(s)) == Sent(s) + sent && SendsAt([s.held.value] + s.queue, sent, at)
    ensures (forall m :: m in [s.held.value] + s.queue ==> m.RawFrame?) ==>
              sent == [([s.held.value] + s.queue)[|s.queue|]]
  {
    hide SendsAt, Coalesce, Marked, Delivered, Emptied;
    var all := [s.held.value] + s.queue;
    assert all[1..] == s.queue;
    sent := Coalesce(s.held.value, s.queue);
    at := SendsExactly(all);
    DrainIsCoalesce(s);
    MarkedSent(s.log, sent);
    if forall m :: m in all ==> m.RawFrame? {
      OnlyLastFrame(all);
    }
  }

  // ─── The whole system ────────────────────────────────────────────────────

  datatype System = System(host: Host, sub: Subscriber)

  ghost predicate HostMoves(s: System, s': System) {
    exists a, ts, msgs :: Step(s.host, a, ts, s'.host, msgs) && s'.sub == PushAll(s.sub, msgs)
  }

  predicate WriterMovesAt(s: System, s': System, ts: u64) {
    && s'.host == s.host
    && if !s.sub.joined then s'.sub == Join(s.sub, s.host, ts)
       else if s.sub.held.None? then s'.sub == Recv(s.sub, s.host, ts)
       else s'.sub == TryRecv(s.sub)
  }

  ghost predicate WriterMoves(s: System, s': System) {
    exists ts: u64 :: WriterMovesAt(s, s', ts)
  }

  ghost predicate Moves(s: System, s': System) {
    HostMoves(s, s') || WriterMoves(s, s')
  }

  ghost predicate StartsAt(s: System, ts: u64) {
    Arises(s.host) && s.sub == Subscribed(s.host, ts)
  }

  /** A subscriber appears in any state a host can get into; then any moves of host and writer. */
  ghost predicate IsRun(run: seq<System>) {
    && run != []
    && (exists ts: u64 :: StartsAt(run[0], ts))
    && forall i :: 0 <= i < |run| - 1 ==> Moves(run[i], run[i + 1])
  }

  ghost predicate IsSuffix(a: seq<Message>, b: seq<Message>) {
    |a| <= |b| && a == b[|b| - |a|..]
  }

  ghost predicate Inv(s: System) {
    && Mirrors(s.sub.hist, s.host)
    && IsSuffix(s.sub.dropped + s.sub.queue, s.sub.hist)
    && (!s.sub.joined ==> s.sub.log == [] && s.sub.held.None?)
    && (forall m :: m in s.sub.hist || m in Held(s.sub) || m in Sent(s.sub) ==> IsSound(m))
    && (s.sub.joined ==> Mirrors(Whole(s.sub), s.host))
  }

  // ─── What each move keeps ────────────────────────────────────────────────

  lemma SuffixTail(a: seq<Message>, b: seq<Message>, k: nat)
    requires IsSuffix(a, b) && k <= |a|
    ensures IsSuffix(a[k..], b)
  {
  }

  lemma InSuffix(a: seq<Message>, b: seq<Message>)
    requires IsSuffix(a, b) && a != []
    ensures a[0] in b
  {
  }

  lemma SuffixPart(a: seq<Message>, b: seq<Message>, all: seq<Message>)
    requires IsSuffix(a + b, all)
    ensures IsSuffix(b, all) && IsSuffix([] + b, all)
  {
    SuffixTail(a + b, all, |a|);
    assert (a + b)[|a|..] == b == [] + b;
  }

  ghost predicate PushedBy(s: Subscriber, msgs: seq<Message>, t: Subscriber) {
    && t.hist == s.hist + msgs && t.dropped + t.queue == (s.dropped + s.queue) + msgs
    && t.log == s.log && t.held == s.held && t.joined == s.joined
  }

  lemma PushOne(s: Subscriber, msgs: seq<Message>, t: Subscriber, m: Message)
    requires PushedBy(s, msgs, t)
    ensures PushedBy(s, msgs + [m], Push(t, m))
  {
    var t' := Push(t, m);
    assert t'.dropped + t'.queue == (t.dropped + t.queue) + [m];
    assert (s.hist + msgs) + [m] == s.hist + (msgs + [m]);
    assert ((s.dropped + s.queue) + msgs) + [m] == (s.dropped + s.queue) + (msgs + [m]);
  }

  lemma PushNone(s: Subscriber)
    ensures PushedBy(s, [], s)
  {
    assert s.hist + [] == s.hist && (s.dropped + s.queue) + [] == s.dropped + s.queue;
  }

  lemma {:induction false} PushAllQueue(s: Subscriber, msgs: seq<Message>)
    ensures PushedBy(s, msgs, PushAll(s, msgs))
  {
    hide PushedBy, Push;
    if msgs == [] {
      PushNone(s);
    } else {
      var n := |msgs| - 1;
      PushAllQueue(s, msgs[..n]);
      PushOne(s, msgs[..n], PushAll(s, msgs[..n]), msgs[n]);
      assert msgs == msgs[..n] + [msgs[n]];
    }
  }

  lemma LastOf(all: seq<Message>, m: Message, n: nat)
    requires n <= |all|
    ensures (all + [m])[|all| - n..] == all[|all| - n..] + [m]
    ensures (all + [m])[..|all| - n] == all[..|all| - n]
  {
  }

  /** The queue holds the last 256 messages that have not been read; all earlier ones are lost. */
  lemma {:induction false} QueueKeepsLast(s: Subscriber, msgs: seq<Message>)
    requires |s.queue| <= 256
    ensures var all, t := s.queue + msgs, PushAll(s, msgs);
            var lost := if |all| > 256 then |all| - 256 else 0;
            t.queue == all[lost..] && t.dropped == s.dropped + all[..lost]
  {
    if msgs == [] {
      assert s.queue + [] == s.queue && s.dropped + [] == s.dropped;
    } else {
      var n := |msgs| - 1;
      QueueKeepsLast(s, msgs[..n]);
      var all := s.queue + msgs[..n];
      assert s.queue + msgs == all + [msgs[n]];
      if |all| >= 256 {
        LastOf(all, msgs[n], 256);
        assert all[|all| - 256..][1..] == all[|all| - 255..];
        assert all[..|all| - 256] + [all[|all| - 256]] == all[..|all| - 255];
      }
    }
  }

  lemma SuffixGrowsAll(a: seq<Message>, b: seq<Message>, msgs: seq<Message>)
    requires IsSuffix(a, b)
    ensures IsSuffix(a + msgs, b + msgs)
  {
    var k := |b| - |a|;
    assert (b + msgs)[k..] == b[k..] + msgs;
  }

  /** A snapshot is the whole picture, and replaying queued messages over it changes nothing, although it
      already includes them: a joining or lagging subscriber may be sent one without flushing its queue. */
  lemma SnapshotReplay(pre: seq<Message>, h: Host, ts: u64, hist: seq<Message>, queue: seq<Message>)
    requires Mirrors(hist, h) && IsSuffix(queue, hist)
    ensures Mirrors(pre + SnapshotSeq(h, ts) + queue, h)
  {
    hide PixelAt, Shows, FullFrame;
    if h.active in h.last {
      var f := h.last[h.active];
      var head := pre + SnapshotSeq(h, ts);
      FullShows(pre, ts, f);
      forall x, y | 0 <= x < f.width && 0 <= y < f.height
        ensures Shows(head + queue, x, y) == Some(PixelAt(f.pixels, f.stride, x, y))
      {
        ShowsConcat(head, queue, x, y);
        SuffixReplay(hist, |hist| - |queue|, x, y);
      }
    }
  }

  lemma SubsDrawn(ts: u64, f: HostFrame, prev: HostFrame, regions: seq<Diff.Rect>, msgs: seq<Message>)
    requires AreRegionsOf(prev, f, regions) && AreSubMessages(ts, f, regions, msgs)
    ensures forall m :: m in msgs ==> IsSound(m)
  {
    hide Diff.ColumnBox, Diff.RowChanged, PixelAt, Diff.AreRegions, Diff.Grouped, Diff.IsDirty;
    forall i | 0 <= i < |msgs|
      ensures IsSound(msgs[i])
    {
      Diff.RegionAt(prev.pixels, f.pixels, f.width, f.height, f.stride, regions, i);
      assert IsSubMessage(ts, f, regions[i], msgs[i]);
      assert |msgs[i].pixels| == msgs[i].h * (msgs[i].w * 4);
    }
  }

  lemma FullDrawn(ts: u64, f: HostFrame)
    ensures IsSound(FullFrame(ts, f))
  {
  }

  lemma QuietSound()
    ensures forall m :: IsQuiet(m) && !m.TileData? && !m.TabCreated? ==> IsSound(m)
  {
  }

  lemma SnapshotDrawn(h: Host, ts: u64)
    ensures forall m :: m in SnapshotSeq(h, ts) ==> IsSound(m)
  {
    hide IsSound, FullFrame;
    if h.active in h.last {
      FullDrawn(ts, h.last[h.active]);
    }
  }

  lemma SwitchDrawn(h: Host, id: u32, ts: u64)
    ensures forall m :: m in SwitchMsgs(h, id, ts) ==> IsSound(m)
  {
    hide IsSound, FullFrame;
    QuietSound();
    if id in h.last {
      FullDrawn(ts, h.last[id]);
    }
  }

  /** The host only publishes frames that the client accepts. */
  lemma StepDrawn(h: Host, a: Action, ts: u64, h': Host, msgs: seq<Message>)
    requires Step(h, a, ts, h', msgs)
    ensures forall m :: m in msgs ==> IsSound(m)
  {
    hide IsSound, FullFrame, AreRegionsOf, AreSubMessages, TooMuch, Created, SwitchMsgs;
    QuietSound();
    match a {
      case NewFrame(f) =>
        FullDrawn(ts, f);
        if f.tabId == h.active && msgs != [] && msgs != [FullFrame(ts, f)] {
          var regions :| AreRegionsOf(h.last[f.tabId], f, regions) && AreSubMessages(ts, f, regions, msgs);
          SubsDrawn(ts, f, h.last[f.tabId], regions, msgs);
        }
      case SwitchTo(id) => SwitchDrawn(h, id, ts);
      case CreateTab(id, url) => SwitchDrawn(Created(h, id, url, NEW_TAB), id, ts);
      case _ =>
    }
  }

  lemma WholeGrows(a: seq<Message>, b: seq<Message>, c: seq<Message>, msgs: seq<Message>)
    ensures a + (b + (c + msgs)) == (a + (b + c)) + msgs
  {
  }

  lemma HostMoveKeeps(s: System, s': System)
    requires Inv(s) && HostMoves(s, s')
    ensures Inv(s')
  {
    hide Mirrors, IsSound, Step, IsSuffix;
    var a, ts, msgs :| Step(s.host, a, ts, s'.host, msgs) && s'.sub == PushAll(s.sub, msgs);
    PushAllQueue(s.sub, msgs);
    SuffixGrowsAll(s.sub.dropped + s.sub.queue, s.sub.hist, msgs);
    StepDrawn(s.host, a, ts, s'.host, msgs);
    StepMirrors(s.sub.hist, s.host, a, ts, s'.host, msgs);
    if s.sub.joined {
      WholeGrows(All(s.sub.log), Held(s.sub), s.sub.dropped + s.sub.queue, msgs);
      StepMirrors(Whole(s.sub), s.host, a, ts, s'.host, msgs);
    }
  }

  lemma JoinKeeps(s: System, s': System, ts: u64)
    requires Inv(s) && !s.sub.joined && s' == System(s.host, Join(s.sub, s.host, ts))
    ensures Inv(s')
  {
    hide Mirrors, IsSound, SnapshotSeq, IsSuffix, Marked, All, Delivered;
    var snapshot, rest := SnapshotSeq(s.host, ts), s.sub.dropped + s.sub.queue;
    SnapshotDrawn(s.host, ts);
    MarkedLog(snapshot, true);
    SnapshotReplay([], s.host, ts, s.sub.hist, rest);
    assert Whole(s'.sub) == [] + snapshot + rest;
  }

  lemma RecvKeeps(s: System, s': System, ts: u64)
    requires Inv(s) && s.sub.joined && s.sub.held.None? && s' == System(s.host, Recv(s.sub, s.host, ts))
    ensures Inv(s')
  {
    hide Mirrors, IsSound, SnapshotSeq, Marked, All, Delivered, IsSuffix;
    var snapshot := SnapshotSeq(s.host, ts);
    SnapshotDrawn(s.host, ts);
    if s.sub.dropped != [] {
      MarkedLog(snapshot, true);
      LogConcat(s.sub.log, Marked(snapshot, true));
      SuffixPart(s.sub.dropped, s.sub.queue, s.sub.hist);
      SnapshotReplay(All(s.sub.log), s.host, ts, s.sub.hist, s.sub.queue);
      assert Whole(s'.sub) == All(s.sub.log) + snapshot + s.sub.queue;
    } else if s.sub.queue != [] {
      assert [] + s.sub.queue == s.sub.queue && [] + s.sub.queue[1..] == s.sub.queue[1..];
      SuffixTail(s.sub.queue, s.sub.hist, 1);
      InSuffix(s.sub.queue, s.sub.hist);
      assert [s.sub.queue[0]] + s.sub.queue[1..] == s.sub.queue;
    }
  }

  lemma DropMirrors(sent: seq<Message>, older: Message, queue: seq<Message>, h: Host)
    requires queue != [] && Supersedes(queue[0], older) && IsDrawn(queue[0])
    requires Mirrors(sent + ([older] + queue), h)
    ensures Mirrors(sent + queue, h)
  {
    hide Shows, Effect, IsDrawn, Supersedes, PixelAt;
    forall x, y
      ensures Shows(sent + queue, x, y) == Shows(sent + ([older] + queue), x, y)
    {
      assert [queue[0]] + queue[1..] == queue;
      SupersededView(older, queue[0], x, y);
      ShowsFront(older, queue, x, y);
      ShowsFront(queue[0], queue[1..], x, y);
      ShowsConcat(sent, queue, x, y);
      ShowsConcat(sent, [older] + queue, x, y);
    }
  }

  lemma SwallowKeeps(s: System, s': System)
    requires Inv(s) && s.sub.joined && s.sub.held.Some? && s.sub.dropped != []
    requires s' == System(s.host, TryRecv(s.sub))
    ensures Inv(s')
  {
    hide Mirrors, IsSound, Supersedes, Marked, All, Delivered, IsSuffix;
    var log, d := s.sub.log + [Entry(s.sub.held.value, true)], s.sub.dropped;
    LogGrows(s.sub, s.sub.held.value);
    LogConcat(log, Marked(d, false));
    MarkedLog(d, false);
    SuffixPart(d, s.sub.queue, s.sub.hist);
    assert Whole(s'.sub) == Whole(s.sub);
    assert Sent(s'.sub) == Sent(s.sub) + [s.sub.held.value];
  }

  lemma SoundDrawn(m: Message)
    requires IsSound(m)
    ensures IsDrawn(m)
  {
  }

  /** Without outstanding lag, taking the next message changes nothing, and superseding nothing visible. */
  lemma DrainKeeps(s: System, s': System)
    requires Inv(s) && s.sub.joined && s.sub.held.Some? && s.sub.dropped == []
    requires s' == System(s.host, TryRecv(s.sub))
    ensures Inv(s')
  {
    hide Mirrors, IsSound, Supersedes, All, Delivered, IsSuffix;
    var log, item, queue := s.sub.log, s.sub.held.value, s.sub.queue;
    LogGrows(s.sub, item);
    assert [] + queue == queue;
    if queue == [] {
      assert Whole(s'.sub) == Whole(s.sub);
    } else {
      assert [] + queue[1..] == queue[1..];
      SuffixTail(queue, s.sub.hist, 1);
      InSuffix(queue, s.sub.hist);
      if Supersedes(queue[0], item) {
        SoundDrawn(queue[0]);
        DropMirrors(All(log), item, queue, s.host);
        assert [queue[0]] + queue[1..] == queue;
      } else {
        assert (All(log) + [item]) + ([queue[0]] + queue[1..]) == All(log) + ([item] + queue);
      }
    }
  }

  lemma TryRecvKeeps(s: System, s': System)
    requires Inv(s) && s.sub.joined && s.sub.held.Some? && s' == System(s.host, TryRecv(s.sub))
    ensures Inv(s')
  {
    hide Inv, TryRecv;
    if s.sub.dropped != [] {
      SwallowKeeps(s, s');
    } else {
      DrainKeeps(s, s');
    }
  }

  lemma WriterMoveKeeps(s: System, s': System)
    requires Inv(s) && WriterMoves(s, s')
    ensures Inv(s')
  {
    hide Inv, Join, Recv, TryRecv;
    var ts: u64 :| WriterMovesAt(s, s', ts);
    if !s.sub.joined {
      JoinKeeps(s, s', ts);
    } else if s.sub.held.None? {
      RecvKeeps(s, s', ts);
    } else {
      TryRecvKeeps(s, s');
    }
  }

  lemma StartHolds(h: Host, ts: u64)
    ensures Inv(System(h, Subscribed(h, ts)))
  {
    hide FullFrame, ShowsFrame, IsSound;
    SnapshotDrawn(h, ts);
    if h.active in h.last {
      FullShows([], ts, h.last[h.active]);
      assert [] + [FullFrame(ts, h.last[h.active])] == SnapshotSeq(h, ts);
    }
  }

  /** The invariant holds in every state of every run: any interleaving of frames, tab operations, page events,
      queue overflow, coalescing and resynchronisation, from the moment a subscriber appears. */
  lemma {:induction false} RunKeepsInvariant(run: seq<System>, i: nat)
    requires IsRun(run) && i < |run|
    ensures Inv(run[i])
  {
    hide Inv, HostMoves, WriterMoves, Arises;
    if i == 0 {
      var ts: u64 :| StartsAt(run[0], ts);
      StartHolds(run[0].host, ts);
    } else {
      RunKeepsInvariant(run, i - 1);
      var s, s' := run[i - 1], run[i];
      assert Moves(run[i - 1], run[i - 1 + 1]);
      if HostMoves(s, s') {
        HostMoveKeeps(s, s');
      } else {
        WriterMoveKeeps(s, s');
      }
    }
  }

  // ─── What a subscriber shows ─────────────────────────────────────────────

  /** Some loss leaves a visible pixel of the active tab's last frame stale. */
  ghost predicate Stale(log: seq<Entry>, h: Host) {
    h.active in h.last && exists j: nat, x: nat, y: nat ::
      x < h.last[h.active].width && y < h.last[h.active].height && LeavesStale(log, j, x, y)
  }

  lemma MirrorsUnlessStale(log: seq<Entry>, h: Host)
    requires Mirrors(All(log), h)
    ensures Mirrors(Delivered(log), h) <==> !Stale(log, h)
  {
    hide LeavesStale, Shows, PixelAt, All, Delivered;
    if h.active in h.last {
      var f := h.last[h.active];
      forall x: nat, y: nat
        ensures Shows(Delivered(log), x, y) == Shows(All(log), x, y) <==> forall j: nat :: !LeavesStale(log, j, x, y)
      {
        LossInvisible(log, x, y);
      }
      if Mirrors(Delivered(log), h) {
        forall j: nat, x: nat, y: nat | x < f.width && y < f.height
          ensures !LeavesStale(log, j, x, y)
        {
          assert Shows(Delivered(log), x, y) == Shows(All(log), x, y);
        }
      }
    }
  }

  /** Nothing is under way and no lag report outstanding. */
  predicate CaughtUp(s: Subscriber) {
    s.joined && s.held.None? && s.dropped == [] && s.queue == []
  }

  /** Mirror, exactly: in every state of every run, what a joined subscriber has been sent, followed by what is still
      under way, shows the last frame of the active tab on every visible pixel if and only if no loss left one
      stale; once nothing is under way, so does what it has been sent. */
  lemma MirrorsExactly(run: seq<System>, i: nat)
    requires IsRun(run) && i < |run| && run[i].sub.joined
    ensures Mirrors(Pipeline(run[i].sub), run[i].host) <==> !Stale(Line(run[i].sub), run[i].host)
    ensures CaughtUp(run[i].sub) ==> (Mirrors(Sent(run[i].sub), run[i].host) <==> !Stale(run[i].sub.log, run[i].host))
  {
    hide Mirrors, Stale, IsSound;
    RunKeepsInvariant(run, i);
    var s := run[i];
    LineParts(s.sub);
    MirrorsUnlessStale(Line(s.sub), s.host);
    if CaughtUp(s.sub) {
      assert Whole(s.sub) == All(s.sub.log);
      MirrorsUnlessStale(s.sub.log, s.host);
    }
  }

  /** Every loss has been answered by a full frame. */
  predicate Synced(s: Subscriber) {
    s.joined && Healed(Line(s))
  }

  lemma PipelineDrawn(s: System)
    requires Inv(s)
    ensures forall m :: m in Pipeline(s.sub) ==> IsDrawn(m)
  {
    hide Mirrors, Sent, IsDrawn;
    forall m | m in Pipeline(s.sub)
      ensures IsDrawn(m)
    {
      assert m in s.sub.queue ==> m in s.sub.dropped + s.sub.queue;
      SoundDrawn(m);
    }
  }

  /** Mirror: whenever every loss has been answered by a full frame, what was sent and is under way shows the last
      frame of the active tab, although frames were skipped and coalesced. */
  lemma SubscriberMirrorsHost(run: seq<System>, i: nat)
    requires IsRun(run) && i < |run| && Synced(run[i].sub)
    ensures Mirrors(Pipeline(run[i].sub), run[i].host)
    ensures CaughtUp(run[i].sub) ==> Mirrors(Sent(run[i].sub), run[i].host)
  {
    hide Shows, PixelAt, Healed, IsSound, Marked;
    RunKeepsInvariant(run, i);
    var s := run[i];
    LineParts(s.sub);
    PipelineDrawn(s);
    forall x, y
      ensures Shows(Pipeline(s.sub), x, y) == Shows(Whole(s.sub), x, y)
    {
      HealedIsInvisible(Line(s.sub), x, y);
    }
    if CaughtUp(s.sub) {
      assert Pipeline(s.sub) == Sent(s.sub);
    }
  }

  /** At (x, y), `q` repaints it, or `d` does not touch it, or `d` shows what `a` already shows. */
  ghost predicate Harmless(a: seq<Message>, d: seq<Message>, q: seq<Message>, x: nat, y: nat) {
    Shows(q, x, y).Some? || Shows(d, x, y).None? || Shows(d, x, y) == Shows(a, x, y)
  }

  lemma HarmlessIff(a: seq<Message>, d: seq<Message>, q: seq<Message>, x: nat, y: nat)
    ensures Shows(a + q, x, y) == Shows(a + d + q, x, y) <==> Harmless(a, d, q, x, y)
  {
    hide Shows;
    ShowsConcat(a + d, q, x, y);
    ShowsConcat(a, d, x, y);
    ShowsConcat(a, q, x, y);
  }

  ghost predicate HarmlessOn(f: FrameData, a: seq<Message>, d: seq<Message>, q: seq<Message>) {
    forall x: nat, y: nat :: x < f.width && y < f.height ==> Harmless(a, d, q, x, y)
  }

  /** One swallowed report, exactly: with `a` what was sent and held, `d` what was pushed out and `q` what is queued,
      giving `d` up is harmless if and only if it is at every visible pixel. */
  lemma SwallowExactly(s: Subscriber, h: Host)
    requires s.held.Some? && s.dropped != [] && h.active in h.last
    requires Mirrors((Sent(s) + Held(s)) + s.dropped + s.queue, h)
    ensures Mirrors(Pipeline(TryRecv(s)), h) <==> HarmlessOn(h.last[h.active], Sent(s) + Held(s), s.dropped, s.queue)
  {
    hide Shows, PixelAt, Marked, All, Delivered, Supersedes, Harmless;
    var a, d, q, f := Sent(s) + Held(s), s.dropped, s.queue, h.last[h.active];
    LogGrows(s, s.held.value);
    MarkedLog(d, false);
    LogConcat(s.log + [Entry(s.held.value, true)], Marked(d, false));
    assert Pipeline(TryRecv(s)) == a + q;
    if Mirrors(a + q, h) {
      forall x: nat, y: nat | x < f.width && y < f.height
        ensures Harmless(a, d, q, x, y)
      {
        HarmlessIff(a, d, q, x, y);
        assert Shows(a + d + q, x, y) == Shows(a + q, x, y);
      }
    }
    if HarmlessOn(f, a, d, q) {
      forall x, y | 0 <= x < f.width && 0 <= y < f.height
        ensures Shows(a + q, x, y) == Some(PixelAt(f.pixels, f.stride, x, y))
      {
        HarmlessIff(a, d, q, x, y);
        assert Harmless(a, d, q, x, y);
      }
    }
  }

  // ─── Runs ────────────────────────────────────────────────────────────────

  ghost predicate Reachable(s: System) {
    exists run :: IsRun(run) && run[|run| - 1] == s
  }

  lemma RunTo(s: System) returns (run: seq<System>)
    requires Reachable(s)
    ensures IsRun(run) && run != [] && run[|run| - 1] == s
  {
    run :| IsRun(run) && run[|run| - 1] == s;
  }

  lemma ReachStart(h: Host, ts: u64)
    requires Arises(h)
    ensures Reachable(System(h, Subscribed(h, ts)))
  {
    hide Arises;
    var s := System(h, Subscribed(h, ts));
    assert StartsAt([s][0], ts);
    assert IsRun([s]);
  }

  lemma ReachNext(s: System, s': System)
    requires Reachable(s) && Moves(s, s')
    ensures Reachable(s')
  {
    hide Moves, StartsAt;
    var run :| IsRun(run) && run[|run| - 1] == s;
    var longer := run + [s'];
    forall i | 0 <= i < |longer| - 1
      ensures Moves(longer[i], longer[i + 1])
    {
      if i < |run| - 1 {
        assert Moves(run[i], run[i + 1]);
      }
    }
    assert longer[0] == run[0];
    assert IsRun(longer);
  }

  lemma {:induction false} PushAllConcat(s: Subscriber, a: seq<Message>, b: seq<Message>)
    ensures PushAll(PushAll(s, a), b) == PushAll(s, a + b)
    decreases |b|
  {
    hide Push;
    if b == [] {
      assert a + b == a;
    } else {
      PushAllConcat(s, a, b[..|b| - 1]);
      assert (a + b)[..|a + b| - 1] == a + b[..|b| - 1];
    }
  }

  /** A processed batch is a sequence of moves: the messages of its frames reach the queue, in order. */
  lemma {:induction false} BatchReaches(s: System, order: seq<HostFrame>, ts: u64, h': Host, msgs: seq<Message>)
    requires Reachable(s) && FrameSteps(s.host, order, ts, h', msgs)
    ensures Reachable(System(h', PushAll(s.sub, msgs)))
    decreases |order|
  {
    hide Reachable, WriterMoves, FrameStep, Push;
    if order != [] {
      var n := |order| - 1;
      var h1, m1, m2 :| FrameStepsVia(s.host, order, ts, h', msgs, h1, m1, m2);
      BatchReaches(s, order[..n], ts, h1, m1);
      PushAllConcat(s.sub, m1, m2);
      assert Step(h1, NewFrame(order[n]), ts, h', m2);
      var s1, s2 := System(h1, PushAll(s.sub, m1)), System(h', PushAll(s.sub, msgs));
      assert HostMoves(s1, s2);
      ReachNext(s1, s2);
    }
  }
}
