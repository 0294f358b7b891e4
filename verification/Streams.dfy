/** Reassembling messages from a byte stream that arrives in chunks: the host's and the client's one-message
    readers, the client's drain loop, and `ingest_wire_bytes`. */
module Streams {
  import opened Bytes
  import opened Wire
  import opened Framing

  function Flatten(chunks: seq<seq<byte>>): seq<byte> {
    if chunks == [] then [] else chunks[0] + Flatten(chunks[1..])
  }

  /** How a stream ends after its last chunk. */
  datatype Ending = Finished | ConnectionLost | ReadFailed

  /** A stream with `pending` still to be read, chunk by chunk; reads never return empty chunks. */
  class Transport {
    var pending: seq<seq<byte>>
    const ending: Ending

    ghost predicate Valid()
      reads this
    {
      [] !in pending
    }

    constructor (chunks: seq<seq<byte>>, ending: Ending)
      requires [] !in chunks
      ensures Valid() && pending == chunks && this.ending == ending
    {
      pending := chunks;
      this.ending := ending;
    }

    /** The next chunk, or an empty one when the stream has ended. */
    method Read() returns (chunk: seq<byte>)
      requires Valid()
      modifies this
      ensures Valid()
      ensures chunk + Flatten(pending) == Flatten(old(pending))
      ensures if old(pending) == [] then chunk == [] && pending == []
              else chunk != [] && |pending| == |old(pending)| - 1
    {
      if pending == [] {
        chunk := [];
      } else {
        chunk := pending[0];
        pending := pending[1..];
      }
    }
  }

  /** How a one-message read ends. */
  datatype Next = Msg(msg: Message) | Closed | Broken(error: Error) | MidFrame(left: nat) | Failed

  /** The end of a stream with `left` bytes undecoded. The host takes a connection lost between frames for a clean
      end; the client takes it for a failure. */
  function AtEnd(left: nat, ending: Ending, atHost: bool): Next {
    if ending.Finished? then (if left == 0 then Closed else MidFrame(left))
    else if ending.ConnectionLost? && left == 0 && atHost then Closed
    else Failed
  }

  /** What reading one message from a whole stream yields; no chunk boundaries appear here. */
  function NextOf(stream: seq<byte>, ending: Ending, atHost: bool): Next {
    var r := Decode(stream);
    if r.Err? then Broken(r.error)
    else if r.value.Some? then Msg(r.value.value.0)
    else AtEnd(|stream|, ending, atHost)
  }

  /** Reading one message depends only on the bytes still to come and on how the stream ends, not on how it is cut
      into chunks, and leaves exactly the bytes after the frame. */
  method ReadNext(t: Transport, inbuf0: seq<byte>, atHost: bool) returns (r: Next, inbuf: seq<byte>)
    requires t.Valid()
    modifies t
    ensures t.Valid()
    ensures r == NextOf(inbuf0 + Flatten(old(t.pending)), t.ending, atHost)
    ensures r.Msg? ==> Decode(inbuf0 + Flatten(old(t.pending))) == Ok(Some((r.msg, inbuf + Flatten(t.pending))))
    ensures Decode(inbuf0 + Flatten(old(t.pending))).Err? ==>
              r == Broken(Decode(inbuf0 + Flatten(old(t.pending))).error)
    ensures Decode(inbuf0 + Flatten(old(t.pending))).Ok? && Decode(inbuf0 + Flatten(old(t.pending))).value.Some? ==>
              r.Msg?
    ensures Decode(inbuf0 + Flatten(old(t.pending))) == Ok(None) ==>
              var left := |inbuf0 + Flatten(old(t.pending))|;
              && (t.ending == Finished ==> if left == 0 then r == Closed else r == MidFrame(left))
              && (t.ending == ConnectionLost ==> if left == 0 && atHost then r == Closed else r == Failed)
              && (t.ending == ReadFailed ==> r == Failed)
  {
    hide Decode;
    inbuf := inbuf0;
    ghost var stream := inbuf0 + Flatten(t.pending);
    while true
      invariant t.Valid() && inbuf + Flatten(t.pending) == stream
      decreases |t.pending|
    {
      var d := Decode(inbuf);
      DecodeStable(inbuf, Flatten(t.pending));
      if d.Err? {
        return Broken(d.error), inbuf;
      }
      if d.value.Some? {
        var (m, rest) := d.value.value;
        return Msg(m), rest;
      }
      ghost var was, left := inbuf, Flatten(t.pending);
      var chunk := t.Read();
      if chunk == [] {
        assert inbuf + [] == inbuf;
        if t.ending.Finished? {
          return if inbuf == [] then Closed else MidFrame(|inbuf|), inbuf;
        } else if t.ending.ConnectionLost? && inbuf == [] && atHost {
          return Closed, inbuf;
        }
        return Failed, inbuf;
      }
      inbuf := inbuf + chunk;
      assert was + (chunk + Flatten(t.pending)) == inbuf + Flatten(t.pending);
    }
  }

  lemma AfterOne(msgs: seq<Message>, m: Message, d: Drained)
    ensures After(msgs, Drained([m] + d.msgs, d.rest, d.error)) == After(msgs + [m], d)
  {
    assert msgs + ([m] + d.msgs) == (msgs + [m]) + d.msgs;
  }

  /** The message loops built on it: everything up to the first failure or the end of the stream. */
  method ReadAll(t: Transport, inbuf0: seq<byte>, atHost: bool) returns (msgs: seq<Message>, last: Next)
    requires t.Valid()
    modifies t
    ensures var d := DecodeAll(inbuf0 + Flatten(old(t.pending)));
            && msgs == d.msgs
            && last == if d.error.Some? then Broken(d.error.value) else AtEnd(|d.rest|, t.ending, atHost)
    ensures DecodeAll(inbuf0 + Flatten(old(t.pending))).error.None? ==>
              var left := |DecodeAll(inbuf0 + Flatten(old(t.pending))).rest|;
              && (t.ending == Finished ==> if left == 0 then last == Closed else last == MidFrame(left))
              && (t.ending == ConnectionLost ==> if left == 0 && atHost then last == Closed else last == Failed)
              && (t.ending == ReadFailed ==> last == Failed)
  {
    hide Decode;
    msgs := [];
    var inbuf := inbuf0;
    ghost var stream := inbuf0 + Flatten(t.pending);
    assert [] + DecodeAll(stream).msgs == DecodeAll(stream).msgs;
    while true
      invariant t.Valid()
      invariant DecodeAll(stream) == After(msgs, DecodeAll(inbuf + Flatten(t.pending)))
      decreases |inbuf + Flatten(t.pending)|
    {
      ghost var now := inbuf + Flatten(t.pending);
      last, inbuf := ReadNext(t, inbuf, atHost);
      if !last.Msg? {
        assert msgs + [] == msgs;
        return;
      }
      AfterOne(msgs, last.msg, DecodeAll(inbuf + Flatten(t.pending)));
      msgs := msgs + [last.msg];
    }
  }

  // ─── The drain loops of the client ───────────────────────────────────────

  /** Decode from the front while frames are complete: the messages, what is left, and what stopped it. */
  method Drain(inbuf: seq<byte>) returns (msgs: seq<Message>, cur: seq<byte>, error: Option<Error>)
    ensures DecodeAll(inbuf) == Drained(msgs, cur, error)
  {
    hide Decode;
    msgs := [];
    cur := inbuf;
    assert [] + DecodeAll(inbuf).msgs == DecodeAll(inbuf).msgs;
    while true
      invariant DecodeAll(inbuf) == After(msgs, DecodeAll(cur))
      decreases |cur|
    {
      assert msgs + [] == msgs;
      var d := Decode(cur);
      if d.Err? {
        return msgs, cur, Some(d.error);
      }
      if d.value.None? {
        return msgs, cur, None;
      }
      AfterOne(msgs, d.value.value.0, DecodeAll(d.value.value.1));
      msgs := msgs + [d.value.value.0];
      cur := d.value.value.1;
    }
  }

  /** `net_main`: an error ends the pass, but the bytes before it are dropped from the buffer. */
  method NetPass(inbuf0: seq<byte>) returns (applied: seq<Message>, inbuf: seq<byte>)
    ensures applied == DecodeAll(inbuf0).msgs && inbuf == DecodeAll(inbuf0).rest
  {
    var error;
    applied, inbuf, error := Drain(inbuf0);
  }

  /** `ingest_wire_bytes`: an error returns at once, after the messages before it were applied and before
      their bytes are dropped. */
  method IngestWireBytes(inbuf0: seq<byte>) returns (r: Result<nat>, applied: seq<Message>, inbuf: seq<byte>)
    ensures var d := DecodeAll(inbuf0);
            && applied == d.msgs
            && r == (if d.error.Some? then Err(d.error.value) else Ok(|d.msgs|))
            && inbuf == if d.error.Some? then inbuf0 else d.rest
  {
    var cur, error;
    applied, cur, error := Drain(inbuf0);
    if error.Some? {
      return Err(error.value), applied, inbuf0;
    }
    return Ok(|applied|), applied, cur;
  }

  /** Feeding chunks one at a time: the messages applied in order, and the final leftover. */
  function Feed(inbuf: seq<byte>, chunks: seq<seq<byte>>): (seq<Message>, seq<byte>)
    decreases |chunks|
  {
    if chunks == [] then ([], inbuf)
    else
      var d := DecodeAll(inbuf + chunks[0]);
      var (msgs, left) := Feed(d.rest, chunks[1..]);
      (d.msgs + msgs, left)
  }

  /** What an error-free drain leaves is a partial frame. */
  lemma {:induction false} RestIsPartial(buf: seq<byte>)
    ensures var d := DecodeAll(buf);
            if d.error.None? then Decode(d.rest) == Ok(None) else Decode(d.rest) == Err(d.error.value)
    decreases |buf|
  {
    hide Decode;
    var r := Decode(buf);
    if r.Ok? && r.value.Some? {
      RestIsPartial(r.value.value.1);
    }
  }

  /** Chunking does not matter: on an error-free stream, any way of cutting the bytes applies the same messages
      and leaves the same rest as decoding the whole stream at once. */
  lemma {:induction false} ChunkingIrrelevant(inbuf: seq<byte>, chunks: seq<seq<byte>>)
    requires Decode(inbuf) == Ok(None)
    requires DecodeAll(inbuf + Flatten(chunks)).error.None?
    ensures var d := DecodeAll(inbuf + Flatten(chunks));
            Feed(inbuf, chunks) == (d.msgs, d.rest)
    decreases |chunks|
  {
    hide Decode;
    if chunks == [] {
      assert inbuf + [] == inbuf;
    } else {
      var tail := Flatten(chunks[1..]);
      var d := DecodeAll(inbuf + chunks[0]);
      assert inbuf + Flatten(chunks) == (inbuf + chunks[0]) + tail;
      DecodeAllSplits(inbuf + chunks[0], tail);
      RestIsPartial(inbuf + chunks[0]);
      ChunkingIrrelevant(d.rest, chunks[1..]);
    }
  }

  /** After an error, `net_main` never delivers another message, whatever arrives. */
  lemma ErrorIsSticky(buf: seq<byte>, more: seq<byte>)
    requires DecodeAll(buf).error.Some?
    ensures DecodeAll(DecodeAll(buf).rest + more).msgs == []
  {
    hide Decode;
    RestIsPartial(buf);
    DecodeStable(DecodeAll(buf).rest, more);
  }

  // ─── `ingest_wire_bytes` over a whole stream ─────────────────────────────

  /** After an error each further call finds the same messages, and the same error, again. */
  lemma IngestRepeats(buf: seq<byte>, more: seq<byte>)
    requires DecodeAll(buf).error.Some?
    ensures DecodeAll(buf + more).msgs == DecodeAll(buf).msgs
    ensures DecodeAll(buf + more).error == DecodeAll(buf).error
  {
    DecodeAllSplits(buf, more);
  }

  /** One call: what is applied and what stays in the buffer, which is everything if decoding failed. */
  function Ingested(buf: seq<byte>): (seq<Message>, seq<byte>) {
    var d := DecodeAll(buf);
    (d.msgs, if d.error.Some? then buf else d.rest)
  }

  /** A call after each chunk. */
  function IngestFeed(inbuf: seq<byte>, chunks: seq<seq<byte>>): (seq<Message>, seq<byte>)
    decreases |chunks|
  {
    if chunks == [] then ([], inbuf)
    else
      var (applied, left) := Ingested(inbuf + chunks[0]);
      var (more, rest) := IngestFeed(left, chunks[1..]);
      (applied + more, rest)
  }

  /** Some call before the last fails with messages already decoded in its buffer. */
  predicate FailsEarly(inbuf: seq<byte>, chunks: seq<seq<byte>>)
    decreases |chunks|
  {
    |chunks| > 1 &&
    var buf := inbuf + chunks[0];
    || (DecodeAll(buf).error.Some? && DecodeAll(buf).msgs != [])
    || FailsEarly(Ingested(buf).1, chunks[1..])
  }

  method IngestStream(chunks: seq<seq<byte>>) returns (applied: seq<Message>, inbuf: seq<byte>)
    ensures (applied, inbuf) == IngestFeed([], chunks)
  {
    hide Decode, DecodeAll;
    applied, inbuf := [], [];
    assert [] + IngestFeed([], chunks).0 == IngestFeed([], chunks).0;
    for k := 0 to |chunks|
      invariant var (more, rest) := IngestFeed(inbuf, chunks[k..]);
                IngestFeed([], chunks) == (applied + more, rest)
    {
      ghost var more := IngestFeed(Ingested(inbuf + chunks[k]).1, chunks[k + 1..]).0;
      assert chunks[k..][0] == chunks[k] && chunks[k..][1..] == chunks[k + 1..];
      var r, msgs;
      r, msgs, inbuf := IngestWireBytes(inbuf + chunks[k]);
      assert applied + (msgs + more) == (applied + msgs) + more;
      applied := applied + msgs;
    }
    assert chunks[|chunks|..] == [] && applied + [] == applied;
  }

  lemma {:induction false} StuckFeed(buf: seq<byte>, chunks: seq<seq<byte>>)
    requires DecodeAll(buf).error.Some?
    ensures IngestFeed(buf, chunks).0 == [] <==> chunks == [] || DecodeAll(buf).msgs == []
    ensures FailsEarly(buf, chunks) <==> |chunks| > 1 && DecodeAll(buf).msgs != []
    decreases |chunks|
  {
    hide Decode, DecodeAll;
    if chunks != [] {
      IngestRepeats(buf, chunks[0]);
      StuckFeed(buf + chunks[0], chunks[1..]);
    }
  }

  lemma NothingComplete(buf: seq<byte>)
    requires Decode(buf) == Ok(None)
    ensures DecodeAll(buf).msgs == []
  {
    hide Decode;
  }

  lemma OnePassMore(a: seq<Message>, b: seq<Message>, c: seq<Message>)
    ensures a + b == a + c <==> b == c
  {
    if a + b == a + c {
      assert b == (a + b)[|a|..] == (a + c)[|a|..] == c;
    }
  }

  /** `ingest_wire_bytes` applies every message of a stream exactly once if and only if no call before the last fails
      with messages already decoded in its buffer. */
  lemma {:induction false} IngestOnce(inbuf: seq<byte>, chunks: seq<seq<byte>>)
    requires Decode(inbuf) == Ok(None)
    ensures IngestFeed(inbuf, chunks).0 == DecodeAll(inbuf + Flatten(chunks)).msgs <==> !FailsEarly(inbuf, chunks)
    decreases |chunks|
  {
    hide Decode, DecodeAll;
    if chunks == [] {
      assert inbuf + [] == inbuf;
      NothingComplete(inbuf);
    } else {
      var buf, tail := inbuf + chunks[0], Flatten(chunks[1..]);
      var d := DecodeAll(buf);
      assert inbuf + Flatten(chunks) == buf + tail;
      DecodeAllSplits(buf, tail);
      if d.error.None? {
        RestIsPartial(buf);
        IngestOnce(d.rest, chunks[1..]);
        OnePassMore(d.msgs, IngestFeed(d.rest, chunks[1..]).0, DecodeAll(d.rest + tail).msgs);
        if |chunks| == 1 {
          assert chunks[1..] == [];
        }
      } else {
        StuckFeed(buf, chunks[1..]);
        OnePassMore(d.msgs, IngestFeed(buf, chunks[1..]).0, []);
        assert d.msgs + [] == d.msgs;
      }
    }
  }

  /** A STOP frame, then a frame with a tag nobody knows. */
  const STOP_THEN_UNKNOWN: seq<byte> := [0x07, 0x00, 0x7F, 0x00]

  lemma StopThenUnknown()
    ensures DecodeAll(STOP_THEN_UNKNOWN) == Drained([Stop], [0x7F, 0x00], Some(UnknownTag(0x7F)))
  {
    var rest: seq<byte> := [0x7F, 0x00];
    assert STOP_THEN_UNKNOWN == [0x07] + ([0x00] + rest);
    assert Decode(STOP_THEN_UNKNOWN) == Ok(Some((Stop, rest)));
    assert Decode(rest) == Err(UnknownTag(0x7F));
  }

  /** One more byte after that, and STOP has been applied twice. */
  lemma StopIsAppliedTwice(b: byte)
    ensures IngestFeed([], [STOP_THEN_UNKNOWN, [b]]).0 == [Stop, Stop]
    ensures DecodeAll(STOP_THEN_UNKNOWN + [b]).msgs == [Stop]
  {
    hide Decode, DecodeAll;
    StopThenUnknown();
    IngestRepeats(STOP_THEN_UNKNOWN, [b]);
    var chunks := [STOP_THEN_UNKNOWN, [b]];
    assert [] + STOP_THEN_UNKNOWN == STOP_THEN_UNKNOWN && chunks[1..] == [[b]] && [[b]][1..] == [];
    assert IngestFeed(STOP_THEN_UNKNOWN + [b], []).0 == [];
    assert IngestFeed(STOP_THEN_UNKNOWN, [[b]]).0 == [Stop] + [];
  }
}
