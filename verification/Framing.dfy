/** The meaning of TCP syslog framing: one decoding step, draining a buffer, and
    feeding a connection's chunks one after the other. */
module Framing {
  import opened Wrappers
  import opened Bytes

  type Frame = seq<Byte>

  datatype TcpFraming = Auto | OctetCounting | NonTransparent

  datatype Mode = Octet | Lines

  datatype FrameError = FrameTooLarge(len: nat, max: nat)

  datatype Step =
    | Wait
    | Emit(frame: Frame, used: nat)
    | FallBack
    | Reject(error: FrameError)

  /** Section 3.4.1 of RFC 6587 starts a message with digits and a space. */
  function Detect(buf: seq<Byte>): Option<Mode> {
    var space := IndexOf(buf, SP);
    if space == |buf| then None
    else if space > 0 && AllDigits(buf[..space]) then Some(Octet)
    else Some(Lines)
  }

  function OctetStep(auto: bool, max: nat, buf: seq<Byte>): (s: Step)
    ensures s.Emit? ==> 0 < s.used <= |buf|
    ensures s.FallBack? ==> auto
  {
    var space := IndexOf(buf, SP);
    if space == |buf| then Wait
    else match ParseUsize(buf[..space])
      case None => if auto then FallBack else Wait
      case Some(len) =>
        if len > max || space + 1 + len > USIZE_MAX then Reject(FrameTooLarge(len, max))
        else if |buf| < space + 1 + len then Wait
        else Emit(buf[space + 1..space + 1 + len], space + 1 + len)
  }

  function LineStep(max: nat, buf: seq<Byte>): (s: Step)
    ensures s.Emit? ==> 0 < s.used <= |buf|
    ensures !s.FallBack?
  {
    var lf := IndexOf(buf, LF);
    if lf < |buf| then Emit(StripCr(buf[..lf]), lf + 1)
    else if |buf| >= max then Reject(FrameTooLarge(|buf|, max))
    else Wait
  }

  /** What the decoder does next with the bytes it holds. */
  function StepOf(framing: TcpFraming, max: nat, buf: seq<Byte>): (s: Step)
    ensures s.Emit? ==> 0 < s.used <= |buf|
    ensures s.FallBack? ==> framing == Auto
  {
    match framing
    case OctetCounting => OctetStep(false, max, buf)
    case NonTransparent => LineStep(max, buf)
    case Auto =>
      match Detect(buf)
      case None => Wait
      case Some(Octet) => OctetStep(true, max, buf)
      case Some(Lines) => LineStep(max, buf)
  }

  /** The outcome of decoding: the frames in order, the framing in force at the end, the
      bytes not decoded, and the error that stopped decoding, if any. */
  datatype Drained = Drained(frames: seq<Frame>, framing: TcpFraming, rest: seq<Byte>, error: Option<FrameError>) {
    function After(earlier: seq<Frame>): Drained {
      this.(frames := earlier + frames)
    }
  }

  function Drain(framing: TcpFraming, max: nat, buf: seq<Byte>): (d: Drained)
    decreases |buf|, framing == Auto
  {
    match StepOf(framing, max, buf)
    case Wait => Drained([], framing, buf, None)
    case Reject(e) => Drained([], framing, buf, Some(e))
    case FallBack => Drain(NonTransparent, max, buf)
    case Emit(frame, used) => Drain(framing, max, buf[used..]).After([frame])
  }

  lemma AfterAfter(d: Drained, a: seq<Frame>, b: seq<Frame>)
    ensures d.After(b).After(a) == d.After(a + b)
  {
    assert a + (b + d.frames) == a + b + d.frames;
  }

  lemma AfterNothing(d: Drained)
    ensures d.After([]) == d
  {
    assert [] + d.frames == d.frames;
  }

  lemma StopAfter(framing: TcpFraming, buf: seq<Byte>, error: Option<FrameError>, earlier: seq<Frame>)
    ensures Drained([], framing, buf, error).After(earlier) == Drained(earlier, framing, buf, error)
  {
    assert earlier + [] == earlier;
  }

  lemma DrainUnfolds(framing: TcpFraming, max: nat, buf: seq<Byte>)
    ensures var s, d := StepOf(framing, max, buf), Drain(framing, max, buf);
            && (s.Wait? ==> d == Drained([], framing, buf, None))
            && (s.Reject? ==> d == Drained([], framing, buf, Some(s.error)))
            && (s.FallBack? ==> d == Drain(NonTransparent, max, buf))
            && (s.Emit? ==> d == Drain(framing, max, buf[s.used..]).After([s.frame]))
  {}

  /** Successive pushes, the way a connection makes them: the first error ends it. */
  function Feed(framing: TcpFraming, max: nat, buf: seq<Byte>, chunks: seq<seq<Byte>>): Drained
    decreases |chunks|
  {
    if chunks == [] then
      Drained([], framing, buf, None)
    else
      var d := Drain(framing, max, buf + chunks[0]);
      if d.error.Some? then d else Feed(d.framing, max, d.rest, chunks[1..]).After(d.frames)
  }

  lemma FeedUnfolds(framing: TcpFraming, max: nat, buf: seq<Byte>, chunk: seq<Byte>, later: seq<seq<Byte>>)
    ensures var d := Drain(framing, max, buf + chunk);
            Feed(framing, max, buf, [chunk] + later)
            == if d.error.Some? then d else Feed(d.framing, max, d.rest, later).After(d.frames)
  {
    hide Drain;
    assert ([chunk] + later)[1..] == later;
  }

  /** One push more. */
  lemma {:induction false} FeedSnoc(framing: TcpFraming, max: nat, buf: seq<Byte>, chunks: seq<seq<Byte>>,
                                    chunk: seq<Byte>)
    requires Feed(framing, max, buf, chunks).error.None?
    ensures var f := Feed(framing, max, buf, chunks);
            Feed(framing, max, buf, chunks + [chunk]) == Drain(f.framing, max, f.rest + chunk).After(f.frames)
    decreases |chunks|
  {
    hide Drain;
    if chunks == [] {
      var d := Drain(framing, max, buf + chunk);
      FeedUnfolds(framing, max, buf, chunk, []);
      assert [] + [chunk] == [chunk] + [];
      AfterNothing(d);
      StopAfter(d.framing, d.rest, None, d.frames);
    } else {
      var d, later := Drain(framing, max, buf + chunks[0]), chunks[1..];
      assert chunks == [chunks[0]] + later && chunks + [chunk] == [chunks[0]] + (later + [chunk]);
      FeedUnfolds(framing, max, buf, chunks[0], later);
      FeedUnfolds(framing, max, buf, chunks[0], later + [chunk]);
      hide Feed;
      FeedSnoc(d.framing, max, d.rest, later, chunk);
      var f := Feed(d.framing, max, d.rest, later);
      AfterAfter(Drain(f.framing, max, f.rest + chunk), d.frames, f.frames);
    }
  }

  // ---- More bytes never change what was already decided ----

  predicate Decided(s: Step) {
    s.Emit? || s.FallBack?
  }

  lemma OctetStepAppend(auto: bool, max: nat, a: seq<Byte>, b: seq<Byte>)
    ensures var s := OctetStep(auto, max, a);
            Decided(s) || s.Reject? ==> OctetStep(auto, max, a + b) == s
  {
    IndexOfAppend(a, b, SP);
    var space := IndexOf(a, SP);
    assert (a + b)[..space] == a[..space];
    var s := OctetStep(auto, max, a);
    if s.Emit? {
      assert (a + b)[space + 1..s.used] == a[space + 1..s.used];
    }
  }

  lemma LineStepAppend(max: nat, a: seq<Byte>, b: seq<Byte>)
    ensures LineStep(max, a).Emit? ==> LineStep(max, a + b) == LineStep(max, a)
  {
    IndexOfAppend(a, b, LF);
    var lf := IndexOf(a, LF);
    assert (a + b)[..lf] == a[..lf];
  }

  lemma DetectAppend(a: seq<Byte>, b: seq<Byte>)
    ensures Detect(a).Some? ==> Detect(a + b) == Detect(a)
  {
    IndexOfAppend(a, b, SP);
    var space := IndexOf(a, SP);
    assert (a + b)[..space] == a[..space];
  }

  lemma StepAppend(framing: TcpFraming, max: nat, a: seq<Byte>, b: seq<Byte>)
    ensures var s := StepOf(framing, max, a);
            Decided(s) || (s.Reject? && framing == OctetCounting) ==> StepOf(framing, max, a + b) == s
  {
    DetectAppend(a, b);
    LineStepAppend(max, a, b);
    OctetStepAppend(framing == Auto, max, a, b);
  }

  /** Draining is compositional: decode what is there, then carry on with the rest. */
  lemma {:induction false} DrainAppend(framing: TcpFraming, max: nat, a: seq<Byte>, b: seq<Byte>)
    ensures var d := Drain(framing, max, a);
            Drain(framing, max, a + b) == Drain(d.framing, max, d.rest + b).After(d.frames)
    decreases |a|, framing == Auto
  {
    hide IndexOf, Detect, OctetStep, LineStep, StepOf;
    StepAppend(framing, max, a, b);
    match StepOf(framing, max, a)
    case Wait =>
    case Reject(_) =>
    case FallBack => DrainAppend(NonTransparent, max, a, b);
    case Emit(frame, used) =>
      assert (a + b)[used..] == a[used..] + b;
      DrainAppend(framing, max, a[used..], b);
      var d := Drain(framing, max, a[used..]);
      AfterAfter(Drain(d.framing, max, d.rest + b), [frame], d.frames);
  }

  /** Draining stops only where no step is possible, and a drained buffer stays drained. */
  lemma {:induction false} DrainStops(framing: TcpFraming, max: nat, buf: seq<Byte>)
    ensures var d := Drain(framing, max, buf);
            && StepOf(d.framing, max, d.rest) == (if d.error.None? then Wait else Reject(d.error.value))
            && Drain(d.framing, max, d.rest) == d.(frames := [])
            && (d.framing == framing || (framing == Auto && d.framing == NonTransparent))
    decreases |buf|, framing == Auto
  {
    match StepOf(framing, max, buf)
    case Wait =>
    case Reject(_) =>
    case FallBack => DrainStops(NonTransparent, max, buf);
    case Emit(_, used) => DrainStops(framing, max, buf[used..]);
  }
}
