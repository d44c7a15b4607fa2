/** One TCP connection of `server.rs`: read, decode, hand over, and the close path. */
module Connection {
  import opened Wrappers
  import opened Bytes
  import opened Units
  import F = Framing
  import D = TcpDecoding

  /** What one turn of the receive loop meets: bytes, a timeout to ride out, or an end
      (end of file, a fatal error, or the stop flag). */
  datatype Event = Data(chunk: seq<Byte>) | Retry | End

  datatype WireFraming = Rfc5424OctetCounting | Rfc3164Lf

  datatype Message = Message(framing: WireFraming, payload: F.Frame)

  function TagOf(framing: F.TcpFraming): WireFraming {
    if framing == F.OctetCounting then Rfc5424OctetCounting else Rfc3164Lf
  }

  /** The chunks that arrive before the connection ends. */
  function Received(events: seq<Event>): seq<seq<Byte>> {
    if events == [] || events[0].End? then []
    else (if events[0].Data? then [events[0].chunk] else []) + Received(events[1..])
  }

  /** The payloads a connection hands over: its frames, and after a clean end the leftover bytes. */
  function HandedOver(d: F.Drained): seq<F.Frame> {
    d.frames + if d.error.None? && d.rest != [] then [d.rest] else []
  }

  function Messages(tag: WireFraming, frames: seq<F.Frame>): seq<Message> {
    seq(|frames|, k requires 0 <= k < |frames| => Message(tag, frames[k]))
  }

  /** Hand the frames over one by one; `handed` lists the `deliver` calls made. */
  method DeliverAll(frames: seq<F.Frame>, tag: WireFraming, before: seq<Message>) returns (handed: seq<Message>)
    ensures handed == before + Messages(tag, frames)
  {
    handed := before;
    for k := 0 to |frames|
      invariant handed == before + Messages(tag, frames[..k])
    {
      handed := handed + [Message(tag, frames[k])];
    }
    assert frames[..|frames|] == frames;
  }

  lemma MessagesAppend(tag: WireFraming, a: seq<F.Frame>, b: seq<F.Frame>)
    ensures Messages(tag, a + b) == Messages(tag, a) + Messages(tag, b)
  {}

  lemma ReceivedUnfolds(events: seq<Event>, i: nat)
    requires i < |events| && !events[i].End?
    ensures var later := Received(events[i + 1..]);
            Received(events[i..]) == if events[i].Data? then [events[i].chunk] + later else later
  {
    assert events[i..][1..] == events[i + 1..];
  }

  /** The receive loop: what has been handed over when it ends, and the frames of a failed push. */
  method ReceiveLoop(decoder: D.TcpDecoder, events: seq<Event>, tag: WireFraming)
    returns (handed: seq<Message>, frames: seq<F.Frame>)
    modifies decoder
    ensures var f := F.Feed(old(decoder.framing), decoder.maxFrameLen, old(decoder.buf), Received(events));
            decoder.Holds(f) && handed + Messages(tag, frames) == Messages(tag, f.frames)
  {
    hide F.Drain, F.Feed, F.Drained.After, Received, Messages;
    handed, frames := [], [];
    ghost var max := decoder.maxFrameLen;
    ghost var whole := F.Feed(decoder.framing, max, decoder.buf, Received(events));
    ghost var done: seq<F.Frame> := [];
    var i := 0;
    NothingReceived(tag);
    F.AfterNothing(whole);
    assert events[0..] == events;
    while i < |events| && !events[i].End?
      invariant 0 <= i <= |events|
      invariant whole == F.Feed(decoder.framing, max, decoder.buf, Received(events[i..])).After(done)
      invariant handed == Messages(tag, done) && frames == []
    {
      ReceivedUnfolds(events, i);
      if events[i].Data? {
        ghost var d := F.Drain(decoder.framing, max, decoder.buf + events[i].chunk);
        ghost var later := Received(events[i + 1..]);
        PushUnfolds(decoder.framing, max, decoder.buf, events[i].chunk, later, done);
        MessagesAppend(tag, done, d.frames);
        var error: Option<F.FrameError>;
        frames, error := decoder.Push(events[i].chunk, frames);
        assert frames == d.frames;
        if error.Some? {
          assert whole == d.(frames := done + frames);
          return;
        }
        handed := DeliverAll(frames, tag, handed);
        frames, done := [], done + d.frames;
      }
      i := i + 1;
    }
    ReceivedAll(decoder.framing, max, decoder.buf, events, i, done);
  }

  lemma NothingReceived(tag: WireFraming)
    ensures Messages(tag, []) == []
  {}

  /** The connection has ended: what was fed stays as it is. */
  lemma ReceivedAll(framing: F.TcpFraming, max: nat, buf: seq<Byte>, events: seq<Event>, i: nat, done: seq<F.Frame>)
    requires i <= |events| && (i < |events| ==> events[i].End?)
    ensures F.Feed(framing, max, buf, Received(events[i..])).After(done) == F.Drained(done, framing, buf, None)
  {
    F.StopAfter(framing, buf, None, done);
  }

  lemma PushUnfolds(framing: F.TcpFraming, max: nat, buf: seq<Byte>, chunk: seq<Byte>, later: seq<seq<Byte>>,
                    done: seq<F.Frame>)
    ensures var d := F.Drain(framing, max, buf + chunk);
            F.Feed(framing, max, buf, [chunk] + later).After(done)
            == if d.error.Some? then d.(frames := done + d.frames)
               else F.Feed(d.framing, max, d.rest, later).After(done + d.frames)
  {
    hide F.Drain, F.Feed;
    var d := F.Drain(framing, max, buf + chunk);
    F.FeedUnfolds(framing, max, buf, chunk, later);
    F.AfterAfter(F.Feed(d.framing, max, d.rest, later), done, d.frames);
  }

  /** Only octet counting is tagged as such; detected counts are not. */
  lemma Tagged(framing: F.TcpFraming, frames: seq<F.Frame>)
    ensures var sent := Messages(TagOf(framing), frames);
            |sent| == |frames| && forall k :: 0 <= k < |sent| ==>
              sent[k] == Message(if framing == F.OctetCounting then Rfc5424OctetCounting else Rfc3164Lf, frames[k])
  {}

  lemma FirstEvent(e: Event, later: seq<Event>)
    requires !e.End?
    ensures Received([e] + later) == (if e.Data? then [e.chunk] else []) + Received(later)
  {
    assert ([e] + later)[1..] == later;
  }

  predicate NoEnd(events: seq<Event>) {
    forall k :: 0 <= k < |events| ==> !events[k].End?
  }

  lemma {:induction false} ReceivedAppend(a: seq<Event>, b: seq<Event>)
    requires NoEnd(a)
    ensures Received(a + b) == Received(a) + Received(b)
  {
    hide Received;
    if a == [] {
      assert a + b == b;
      NoEvents();
    } else {
      var later := a[1..];
      assert a == [a[0]] + later && a + b == [a[0]] + (later + b);
      FirstEvent(a[0], later + b);
      FirstEvent(a[0], later);
      ReceivedAppend(later, b);
      var first := if a[0].Data? then [a[0].chunk] else [];
      assert first + (Received(later) + Received(b)) == first + Received(later) + Received(b);
    }
  }

  lemma NoEvents()
    ensures Received([]) == []
  {}

  lemma OneEvent(chunk: seq<Byte>, later: seq<Event>)
    ensures Received([Data(chunk)]) == [chunk] && Received([Retry]) == [] && Received([End] + later) == []
  {
    assert [Data(chunk)][1..] == [] && [Retry][1..] == [];
  }

  /** The chunks of the data events up to the first end, whatever else happens between them. */
  lemma ReceivedMeaning(a: seq<Event>, b: seq<Event>, chunk: seq<Byte>)
    requires NoEnd(a)
    ensures Received(a + [Data(chunk)] + b) == Received(a) + [chunk] + Received(b)
    ensures Received(a + [Retry] + b) == Received(a) + Received(b)
    ensures Received(a + [End] + b) == Received(a)
  {
    hide Received;
    OneEvent(chunk, b);
    Inserted(a, [Data(chunk)], b);
    Inserted(a, [Retry], b);
    assert a + [End] + b == a + ([End] + b) && Received(a) + [] == Received(a);
    ReceivedAppend(a, [End] + b);
  }

  lemma Inserted(a: seq<Event>, e: seq<Event>, b: seq<Event>)
    requires NoEnd(a) && NoEnd(e)
    ensures Received(a + e + b) == Received(a) + Received(e) + Received(b)
  {
    hide Received;
    ReceivedAppend(a + e, b);
    ReceivedAppend(a, e);
  }

  /** The whole life of a connection, as the list of its `deliver` calls in order. */
  method ConnLoop(framing: F.TcpFraming, maxFrameLen: nat, events: seq<Event>) returns (handed: seq<Message>)
    ensures var max := if maxFrameLen == 0 then 1 else maxFrameLen;
            handed == Messages(TagOf(framing), HandedOver(F.Feed(framing, max, [], Received(events))))
    ensures forall k :: 0 <= k < |handed| ==>
              handed[k].framing == if framing == F.OctetCounting then Rfc5424OctetCounting else Rfc3164Lf
  {
    hide F.Feed, Received, Messages;
    Tagged(framing, HandedOver(F.Feed(framing, if maxFrameLen == 0 then 1 else maxFrameLen, [], Received(events))));
    var decoder := new D.TcpDecoder(framing, maxFrameLen);
    var tag := TagOf(framing);
    ghost var f := F.Feed(framing, decoder.maxFrameLen, [], Received(events));
    var frames: seq<F.Frame>;
    handed, frames := ReceiveLoop(decoder, events, tag);
    ghost var left := if decoder.buf == [] then [] else [decoder.buf];
    MessagesAppend(tag, frames, left);
    MessagesAppend(tag, f.frames, left);
    frames := decoder.Flush(frames);
    handed := DeliverAll(frames, tag, handed);
  }

  // ---- What the close path loses ----

  /** Over any connection the bytes received are, in order, the units decoded, the bytes held at
      the end, and the bytes not looked at after an error. */
  lemma {:induction false} FeedConservation(framing: F.TcpFraming, max: nat, buf: seq<Byte>, chunks: seq<seq<Byte>>)
    returns (units: seq<Unit>, unread: seq<Byte>)
    ensures var f := F.Feed(framing, max, buf, chunks);
            && RawAll(units) + f.rest + unread == buf + Flatten(chunks)
            && Payloads(units) == f.frames
            && (forall u :: u in units ==> Valid(max, u) && Allowed(framing, u))
            && (f.error.None? ==> unread == [])
    decreases |chunks|
  {
    hide F.StepOf, F.Drain, Raw, Valid, Allowed;
    if chunks == [] {
      units, unread := [], [];
    } else {
      var tail := Flatten(chunks[1..]);
      var d := F.Drain(framing, max, buf + chunks[0]);
      units := Conservation(framing, max, buf + chunks[0]);
      if d.error.Some? {
        unread := tail;
        Splice(RawAll(units), [], d.rest, unread, d.rest, tail, buf, chunks[0]);
        assert RawAll(units) + [] == RawAll(units);
      } else {
        F.DrainStops(framing, max, buf + chunks[0]);
        var first, more := units, [];
        more, unread := FeedConservation(d.framing, max, d.rest, chunks[1..]);
        AllowedStays(framing, d.framing, more);
        Concat(first, more);
        var f := F.Feed(d.framing, max, d.rest, chunks[1..]);
        Splice(RawAll(first), RawAll(more), f.rest, unread, d.rest, tail, buf, chunks[0]);
        units := first + more;
      }
    }
  }

  lemma Splice<T>(u: seq<T>, m: seq<T>, rest: seq<T>, unread: seq<T>, held: seq<T>, tail: seq<T>, buf: seq<T>,
                  chunk: seq<T>)
    requires u + held == buf + chunk
    requires m + rest + unread == held + tail
    ensures u + m + rest + unread == buf + (chunk + tail)
  {
    calc {
      u + m + rest + unread;
      u + (m + rest + unread);
      u + (held + tail);
      u + held + tail;
      buf + chunk + tail;
      buf + (chunk + tail);
    }
  }

  lemma AllowedStays(before: F.TcpFraming, after: F.TcpFraming, units: seq<Unit>)
    requires after == before || before == F.Auto
    requires forall u :: u in units ==> Allowed(after, u)
    ensures forall u :: u in units ==> Allowed(before, u)
  {}

  lemma {:induction false} Concat(a: seq<Unit>, b: seq<Unit>)
    ensures RawAll(a + b) == RawAll(a) + RawAll(b) && Payloads(a + b) == Payloads(a) + Payloads(b)
  {
    hide RawAll, Payloads;
    if a == [] {
      assert a + b == b;
      NoUnits();
    } else {
      var u, later := a[0], a[1..];
      assert a == [u] + later && a + b == [u] + (later + b);
      FirstUnit(u, later);
      FirstUnit(u, later + b);
      Concat(later, b);
      assert Raw(u) + (RawAll(later) + RawAll(b)) == Raw(u) + RawAll(later) + RawAll(b);
      assert [u.payload] + (Payloads(later) + Payloads(b)) == [u.payload] + Payloads(later) + Payloads(b);
    }
  }

  lemma NoUnits()
    ensures RawAll([]) == [] && Payloads([]) == []
  {}

  lemma FirstUnit(u: Unit, later: seq<Unit>)
    ensures RawAll([u] + later) == Raw(u) + RawAll(later) && Payloads([u] + later) == [u.payload] + Payloads(later)
  {
    hide Raw;
    assert ([u] + later)[1..] == later;
  }

  /** The close path: every unit decoded is handed over exactly once and in order. After a clean
      end so are the bytes still held; after an oversized frame no byte of it is. */
  lemma {:induction false} ClosePath(framing: F.TcpFraming, max: nat, events: seq<Event>)
    returns (units: seq<Unit>, held: seq<Byte>, unread: seq<Byte>)
    ensures var f := F.Feed(framing, max, [], Received(events));
            && RawAll(units) + held + unread == Flatten(Received(events))
            && (forall u :: u in units ==> Valid(max, u) && Allowed(framing, u))
            && HandedOver(f) == Payloads(units) + (if f.error.None? && held != [] then [held] else [])
            && (f.error.None? ==> unread == [])
  {
    hide F.Feed, Received;
    units, unread := FeedConservation(framing, max, [], Received(events));
    held := F.Feed(framing, max, [], Received(events)).rest;
  }
}
