/** Framed messages on the wire: every accepted stream is a list of units, and every list of
    well-formed units is decoded to its payloads. */
module Units {
  import opened Wrappers
  import opened Bytes
  import opened Framing
  import opened Chunking

  /** A message with its octet count, or a message with its line ending (sections 3.4.1 and
      3.4.2 of RFC 6587). */
  datatype Unit =
    | Counted(header: seq<Byte>, payload: Frame)
    | Line(payload: Frame, crlf: bool)

  function Raw(u: Unit): seq<Byte> {
    match u
    case Counted(header, payload) => header + [32] + payload
    case Line(payload, crlf) => payload + (if crlf then [13, 10] else [10])
  }

  function RawAll(units: seq<Unit>): seq<Byte> {
    if units == [] then [] else Raw(units[0]) + RawAll(units[1..])
  }

  function Payloads(units: seq<Unit>): seq<Frame> {
    if units == [] then [] else [units[0].payload] + Payloads(units[1..])
  }

  /** The octet count is the payload's; a line holds no LF, and a lone LF follows no CR. */
  predicate Valid(max: nat, u: Unit) {
    match u
    case Counted(header, payload) => ParseUsize(header) == Some(|payload|) && |payload| <= max
    case Line(payload, crlf) => LF !in payload && (crlf || payload == [] || payload[|payload| - 1] != CR)
  }

  /** The kinds of unit a framing lets through. */
  predicate Allowed(framing: TcpFraming, u: Unit) {
    if u.Counted? then framing != NonTransparent else framing != OctetCounting
  }

  lemma HeaderHasNoSpace(h: seq<Byte>)
    requires ParseUsize(h).Some?
    ensures h != [] && forall k :: 0 <= k < |h| ==> h[k] != SP
  {
    var digits := if h[0] == PLUS then h[1..] else h;
    assert h == (if h[0] == PLUS then [PLUS] else []) + digits;
  }

  // ---- Conservation of bytes ----

  lemma OctetUnit(auto: bool, max: nat, buf: seq<Byte>) returns (u: Unit)
    requires OctetStep(auto, max, buf).Emit?
    ensures var s := OctetStep(auto, max, buf);
            u.Counted? && Valid(max, u) && u.payload == s.frame && Raw(u) + buf[s.used..] == buf
  {
    hide IndexOf, ParseUsize;
    var s := OctetStep(auto, max, buf);
    var space := IndexOf(buf, SP);
    u := Counted(buf[..space], s.frame);
    assert buf == buf[..space] + [SP] + buf[space + 1..s.used] + buf[s.used..];
  }

  lemma LineUnit(max: nat, buf: seq<Byte>) returns (u: Unit)
    requires LineStep(max, buf).Emit?
    ensures var s := LineStep(max, buf);
            u.Line? && Valid(max, u) && u.payload == s.frame && Raw(u) + buf[s.used..] == buf
  {
    var s, lf := LineStep(max, buf), IndexOf(buf, LF);
    u := Line(s.frame, lf > 0 && buf[lf - 1] == CR);
    assert buf == buf[..lf] + [LF] + buf[s.used..];
    if u.crlf {
      assert buf[..lf] == s.frame + [CR];
    }
  }

  /** Every byte taken in belongs to exactly one decoded unit, in order, or is still held
      (held until an error discards it). Octet-counted frames respect the ceiling. */
  lemma {:induction false} Conservation(framing: TcpFraming, max: nat, buf: seq<Byte>) returns (units: seq<Unit>)
    ensures var d := Drain(framing, max, buf);
            && RawAll(units) + d.rest == buf
            && Payloads(units) == d.frames
            && (forall u :: u in units ==> Valid(max, u) && Allowed(framing, u))
    decreases |buf|, framing == Auto
  {
    hide StepOf, Raw, RawAll, Payloads, Valid, Allowed;
    match StepOf(framing, max, buf)
    case Wait => units := EmptyUnits(buf);
    case Reject(_) => units := EmptyUnits(buf);
    case FallBack =>
      units := Conservation(NonTransparent, max, buf);
      OnlyAutoFallsBack(framing, max, buf, units);
    case Emit(frame, used) =>
      var u := StepUnit(framing, max, buf);
      var more := Conservation(framing, max, buf[used..]);
      Prepend(u, more, Drain(framing, max, buf[used..]).rest);
      units := [u] + more;
  }

  lemma EmptyUnits(rest: seq<Byte>) returns (units: seq<Unit>)
    ensures units == [] && RawAll(units) + rest == rest && Payloads(units) == []
  {
    units := [];
  }

  lemma Prepend(u: Unit, more: seq<Unit>, rest: seq<Byte>)
    ensures RawAll([u] + more) + rest == Raw(u) + (RawAll(more) + rest)
    ensures Payloads([u] + more) == [u.payload] + Payloads(more)
  {
    assert ([u] + more)[1..] == more;
  }

  lemma OnlyAutoFallsBack(framing: TcpFraming, max: nat, buf: seq<Byte>, units: seq<Unit>)
    requires StepOf(framing, max, buf).FallBack?
    requires forall u :: u in units ==> Allowed(NonTransparent, u)
    ensures forall u :: u in units ==> Allowed(framing, u)
  {}

  lemma StepUnit(framing: TcpFraming, max: nat, buf: seq<Byte>) returns (u: Unit)
    requires StepOf(framing, max, buf).Emit?
    ensures var s := StepOf(framing, max, buf);
            Valid(max, u) && Allowed(framing, u) && u.payload == s.frame && Raw(u) + buf[s.used..] == buf
  {
    if framing == OctetCounting || (framing == Auto && Detect(buf) == Some(Octet)) {
      u := OctetUnit(framing == Auto, max, buf);
    } else {
      u := LineUnit(max, buf);
    }
  }

  /** In line mode less than the ceiling is held after an accepted push, and no LF. */
  lemma {:induction false} LineBuffer(max: nat, buf: seq<Byte>)
    ensures var d := Drain(NonTransparent, max, buf);
            d.error.None? ==> |d.rest| < max && LF !in d.rest
  {
    DrainStops(NonTransparent, max, buf);
    var rest := Drain(NonTransparent, max, buf).rest;
    assert LineStep(max, rest).Wait? ==> IndexOf(rest, LF) == |rest|;
  }

  /** Octet-counted frames respect the ceiling. */
  lemma {:induction false} OctetFrames(max: nat, buf: seq<Byte>)
    ensures forall f :: f in Drain(OctetCounting, max, buf).frames ==> |f| <= max
  {
    var units := Conservation(OctetCounting, max, buf);
    hide Drain;
    var frames := Drain(OctetCounting, max, buf).frames;
    PayloadsFrom(units, frames);
    forall k | 0 <= k < |frames|
      ensures |frames[k]| <= max
    {
      assert units[k] in units;
    }
  }

  lemma {:induction false} PayloadsFrom(units: seq<Unit>, frames: seq<Frame>)
    requires Payloads(units) == frames
    ensures |units| == |frames| && forall k :: 0 <= k < |frames| ==> frames[k] == units[k].payload
  {
    if units != [] {
      PayloadsFrom(units[1..], frames[1..]);
    }
  }

  // ---- When the buffer has a bound ----

  /** Everything is kept: no frame, no error, no change of framing. */
  predicate HoldsAll(framing: TcpFraming, max: nat, buf: seq<Byte>) {
    Drain(framing, max, buf) == Drained([], framing, buf, None)
  }

  ghost predicate HoldsMore(framing: TcpFraming, max: nat, buf: seq<Byte>, n: nat) {
    exists more: seq<Byte> :: |more| >= n && HoldsAll(framing, max, buf + more)
  }

  /** Bytes pushed behind `buf` can be held in any number. */
  ghost predicate Unbounded(framing: TcpFraming, max: nat, buf: seq<Byte>) {
    forall n :: HoldsMore(framing, max, buf, n)
  }

  /** The bytes before the first space; all of them when there is none. */
  function Header(buf: seq<Byte>): seq<Byte> {
    buf[..IndexOf(buf, SP)]
  }

  /** The octet-counting arm waits for ever: there is no space, or what precedes it is not a length. */
  predicate Stalled(framing: TcpFraming, buf: seq<Byte>) {
    match framing
    case OctetCounting => SP in buf ==> ParseUsize(Header(buf)).None?
    case Auto => SP !in buf
    case NonTransparent => false
  }

  lemma HeaderAppend(buf: seq<Byte>, more: seq<Byte>)
    requires SP in buf
    ensures SP in buf + more && Header(buf + more) == Header(buf) && IndexOf(buf + more, SP) == IndexOf(buf, SP) < |buf|
  {
    IndexOfAppend(buf, more, SP);
    var i := IndexOf(buf, SP);
    assert i < |buf| by {
      var k :| 0 <= k < |buf| && buf[k] == SP;
    }
    assert (buf + more)[i] == SP && (buf + more)[..i] == buf[..i];
  }

  /** A buffer held without a frame or an error: it is stalled, or a header or the ceiling bounds it. */
  lemma HeldBound(framing: TcpFraming, max: nat, buf: seq<Byte>)
    requires StepOf(framing, max, buf) == Wait && !Stalled(framing, buf)
    ensures |buf| <= IndexOf(buf, SP) + max
    ensures framing == NonTransparent ==> |buf| < max
  {
    hide OctetStep, LineStep, ParseUsize, IndexOf;
    LineWaits(max, buf);
    if framing != NonTransparent {
      HeaderAppend(buf, []);
      CountWaits(framing == Auto, max, buf);
    }
  }

  lemma CountWaits(auto: bool, max: nat, buf: seq<Byte>)
    requires IndexOf(buf, SP) < |buf|
    ensures OctetStep(auto, max, buf) == Wait && (auto || ParseUsize(Header(buf)).Some?) ==>
            |buf| <= IndexOf(buf, SP) + max
  {
    hide ParseUsize, IndexOf;
  }

  lemma LineWaits(max: nat, buf: seq<Byte>)
    ensures LineStep(max, buf) == Wait ==> |buf| < max
  {
    hide IndexOf, StripCr;
  }

  /** Without a space, octet counting and auto-detection hold whatever arrives. */
  lemma NoSpaceStalls(framing: TcpFraming, max: nat, buf: seq<Byte>)
    requires framing != NonTransparent && SP !in buf
    ensures HoldsAll(framing, max, buf)
  {
    assert IndexOf(buf, SP) == |buf|;
    hide IndexOf;
  }

  /** A header that is not a length stalls an octet-counting connection for good, and only that does:
      every later byte is kept, none is delivered, and no error is raised. */
  lemma HeaderStallsIff(max: nat, buf: seq<Byte>)
    requires SP in buf && StepOf(OctetCounting, max, buf) == Wait
    ensures ParseUsize(Header(buf)).None? <==> forall more :: HoldsAll(OctetCounting, max, buf + more)
  {
    if ParseUsize(Header(buf)).None? {
      forall more ensures HoldsAll(OctetCounting, max, buf + more) {
        HeaderAppend(buf, more);
        hide IndexOf, ParseUsize, Header;
      }
    } else {
      var more := seq(max + 1, k => 0);
      StallsFor(OctetCounting, max, buf, more);
    }
  }

  /** A buffer that is not stalled holds fewer than `max + 1` further bytes before a frame or an error. */
  lemma StallsFor(framing: TcpFraming, max: nat, buf: seq<Byte>, more: seq<Byte>)
    requires StepOf(framing, max, buf) == Wait && !Stalled(framing, buf) && |more| > max
    ensures !HoldsAll(framing, max, buf + more)
  {
    if HoldsAll(framing, max, buf + more) {
      DrainStops(framing, max, buf + more);
      if framing != NonTransparent {
        HeaderAppend(buf, more);
      }
      HeldBound(framing, max, buf + more);
    }
  }

  lemma {:induction false} StalledUnbounded(framing: TcpFraming, max: nat, buf: seq<Byte>)
    requires Stalled(framing, buf) && StepOf(framing, max, buf) == Wait
    ensures Unbounded(framing, max, buf)
  {
    forall n: nat ensures HoldsMore(framing, max, buf, n) {
      var more: seq<Byte> := seq(n, k => LF);
      assert SP !in more;
      if SP in buf {
        HeaderStallsIff(max, buf);
        assert HoldsAll(framing, max, buf + more);
      } else {
        NoSpaceStalls(framing, max, buf + more);
      }
    }
  }

  /** After an accepted push the buffer can grow without bound, with no frame and no error, exactly when
      it is stalled. */
  lemma UnboundedIff(framing: TcpFraming, max: nat, buf: seq<Byte>)
    requires Drain(framing, max, buf).error.None?
    ensures var d := Drain(framing, max, buf);
            Unbounded(d.framing, max, d.rest) <==> Stalled(d.framing, d.rest)
    ensures var d := Drain(framing, max, buf);
            !Stalled(d.framing, d.rest) ==>
                |d.rest| <= IndexOf(d.rest, SP) + max && (d.framing == NonTransparent ==> |d.rest| < max)
  {
    DrainStops(framing, max, buf);
    var d := Drain(framing, max, buf);
    hide Drain, StepOf, Stalled;
    if Stalled(d.framing, d.rest) {
      StalledUnbounded(d.framing, max, d.rest);
    } else {
      HeldBound(d.framing, max, d.rest);
      if Unbounded(d.framing, max, d.rest) {
        assert HoldsMore(d.framing, max, d.rest, max + 1);
        var more: seq<Byte> :| |more| >= max + 1 && HoldsAll(d.framing, max, d.rest + more);
        StallsFor(d.framing, max, d.rest, more);
      }
    }
  }

  /** Auto gives up on octet counting for good exactly when an all-digit prefix overflows. */
  lemma FallBackIff(max: nat, buf: seq<Byte>)
    ensures StepOf(Auto, max, buf).FallBack? <==>
            var space := IndexOf(buf, SP);
            0 < space < |buf| && AllDigits(buf[..space]) && Value(buf[..space]) > USIZE_MAX
  {
    hide IndexOf, LineStep;
  }

  /** A count is refused exactly when it is over the ceiling, or when its frame would end beyond the last
      address; the error names both numbers, and nothing is decoded. */
  lemma OversizedIff(framing: TcpFraming, max: nat, n: nat, tail: seq<Byte>)
    requires framing != NonTransparent && n <= 0xFFFF_FFFF_FFFF_FFFF
    ensures var s := Decimal(n) + [32] + tail;
            if n > max || |Decimal(n)| + 1 + n > 0xFFFF_FFFF_FFFF_FFFF
            then Drain(framing, max, s) == Drained([], framing, s, Some(FrameTooLarge(n, max)))
            else !StepOf(framing, max, s).Reject?
  {
    hide IndexOf, ParseUsize, Decimal, Value, LineStep;
    var header := Decimal(n);
    var s := header + [32] + tail;
    assert s == header + ([32] + tail);
    DecimalParses(n);
    HeaderHasNoSpace(header);
    IndexOfAppend(header, [32] + tail, SP);
    assert s[..|header|] == header;
    assert IndexOf([32] + tail, SP) == 0 by { SpaceFirst(tail); }
  }

  lemma SpaceFirst(tail: seq<Byte>)
    ensures IndexOf([32] + tail, SP) == 0
  {}

  // ---- Round trip ----

  /** What a sender must respect for its messages to survive every chunking. In Auto a count is
      digits only, and a line must not read as a count followed by a space. */
  predicate WellFormed(framing: TcpFraming, max: nat, u: Unit) {
    && Valid(max, u)
    && Allowed(framing, u)
    && match u
       case Counted(header, _) => |Raw(u)| <= USIZE_MAX && (framing == Auto ==> AllDigits(header))
       case Line(payload, crlf) =>
         && (framing == Auto ==> Detect(payload) != Some(Octet))
         && ((framing == Auto && SP !in payload) || |Raw(u)| <= max)
  }

  lemma CountedSlices(header: seq<Byte>, payload: seq<Byte>, tail: seq<Byte>)
    ensures var s, h := header + [SP] + payload + tail, |header|;
            && s == header + ([SP] + (payload + tail)) && s[..h] == header
            && s[h + 1..h + 1 + |payload|] == payload && |s| == h + 1 + |payload| + |tail|
  {}

  lemma OctetStepAt(auto: bool, max: nat, s: seq<Byte>, h: nat, len: nat)
    requires IndexOf(s, SP) == h < |s| && ParseUsize(s[..h]) == Some(len) && len <= max && h + 1 + len <= USIZE_MAX
    ensures OctetStep(auto, max, s) == if |s| < h + 1 + len then Wait else Emit(s[h + 1..h + 1 + len], h + 1 + len)
  {
    hide IndexOf, ParseUsize;
  }

  /** A header at the front of the buffer is read as a count, whatever follows its space. */
  lemma CountRead(framing: TcpFraming, max: nat, u: Unit, s: seq<Byte>, tail: seq<Byte>)
    requires u.Counted? && WellFormed(framing, max, u) && s == u.header + ([SP] + tail)
    ensures IndexOf(s, SP) == |u.header| && s[..|u.header|] == u.header
    ensures StepOf(framing, max, s) == OctetStep(framing == Auto, max, s)
  {
    HeaderHasNoSpace(u.header);
    IndexOfAppend(u.header, [SP] + tail, SP);
    assert s[..|u.header|] == u.header;
    hide IndexOf, ParseUsize, OctetStep, LineStep;
  }

  lemma CountedStep(framing: TcpFraming, max: nat, u: Unit, tail: seq<Byte>)
    requires u.Counted? && WellFormed(framing, max, u)
    ensures StepOf(framing, max, Raw(u) + tail) == Emit(u.payload, |Raw(u)|)
  {
    CountedSlices(u.header, u.payload, tail);
    var s := Raw(u) + tail;
    CountRead(framing, max, u, s, u.payload + tail);
    OctetStepAt(framing == Auto, max, s, |u.header|, |u.payload|);
    hide StepOf, OctetStep, IndexOf;
  }

  lemma DetectLine(payload: seq<Byte>, tail: seq<Byte>)
    requires Detect(payload) != Some(Octet)
    requires SP in payload || (tail != [] && !IsDigit(tail[0]) && tail[0] != SP)
    ensures Detect(payload + tail) != Some(Octet)
    ensures SP in payload ==> Detect(payload + tail) == Some(Lines)
  {
    DetectAppend(payload, tail);
    IndexOfAppend(payload, tail, SP);
    if SP !in payload {
      var s := payload + tail;
      var space := IndexOf(s, SP);
      if space < |s| {
        assert s[..space][|payload|] == tail[0];
      }
    }
  }

  /** A line without its LF. */
  function Unended(u: Unit): seq<Byte>
    requires u.Line?
  {
    if u.crlf then u.payload + [CR] else u.payload
  }

  lemma UnendedMeaning(max: nat, u: Unit)
    requires u.Line? && Valid(max, u)
    ensures Raw(u) == Unended(u) + [LF] && LF !in Unended(u) && StripCr(Unended(u)) == u.payload
  {}

  lemma LineStepAt(max: nat, line: seq<Byte>, tail: seq<Byte>)
    requires LF !in line
    ensures LineStep(max, line + [LF] + tail) == Emit(StripCr(line), |line| + 1)
  {
    var s := line + [LF] + tail;
    assert s == line + ([LF] + tail);
    IndexOfAppend(line, [LF] + tail, LF);
    assert IndexOf(line, LF) == |line|;
    hide IndexOf, StripCr;
    assert s[..|line|] == line;
  }

  lemma LineStepOf(max: nat, u: Unit, tail: seq<Byte>)
    requires u.Line? && Valid(max, u)
    ensures LineStep(max, Raw(u) + tail) == Emit(u.payload, |Raw(u)|)
  {
    UnendedMeaning(max, u);
    LineStepAt(max, Unended(u), tail);
    hide LineStep, StripCr, Unended, Raw;
  }

  lemma AutoReadsLine(max: nat, u: Unit, tail: seq<Byte>)
    requires u.Line? && WellFormed(Auto, max, u) && SP in Raw(u) + tail
    ensures Detect(Raw(u) + tail) == Some(Lines)
  {
    var ending := if u.crlf then [CR, LF] else [LF];
    assert Raw(u) + tail == u.payload + (ending + tail);
    DetectLine(u.payload, ending + tail);
  }

  /** A whole unit at the front of the buffer is decoded, whatever follows it. */
  lemma UnitStep(framing: TcpFraming, max: nat, u: Unit, tail: seq<Byte>)
    requires WellFormed(framing, max, u)
    requires framing == Auto ==> SP in Raw(u) + tail
    ensures StepOf(framing, max, Raw(u) + tail) == Emit(u.payload, |Raw(u)|)
  {
    if u.Counted? {
      CountedStep(framing, max, u, tail);
    } else {
      LineStepOf(max, u, tail);
      if framing == Auto {
        AutoReadsLine(max, u, tail);
      }
    }
  }

  /** A part of a unit is waited for. */
  lemma PartialUnit(framing: TcpFraming, max: nat, u: Unit, n: nat)
    requires max >= 1 && WellFormed(framing, max, u) && n < |Raw(u)|
    ensures StepOf(framing, max, Raw(u)[..n]) == Wait
  {
    if u.Line? {
      PartialLine(framing, max, u, n);
    } else if n <= |u.header| {
      HeaderHasNoSpace(u.header);
      assert Raw(u)[..n] == u.header[..n];
    } else {
      PartialPayload(framing, max, u, n);
    }
  }

  lemma PartialPayload(framing: TcpFraming, max: nat, u: Unit, n: nat)
    requires u.Counted? && WellFormed(framing, max, u) && |u.header| < n < |Raw(u)|
    ensures StepOf(framing, max, Raw(u)[..n]) == Wait
  {
    var tail, p := u.payload[..n - |u.header| - 1], Raw(u)[..n];
    assert p == u.header + ([SP] + tail);
    CountRead(framing, max, u, p, tail);
    OctetStepAt(framing == Auto, max, p, |u.header|, |u.payload|);
    hide StepOf, OctetStep, IndexOf;
  }

  lemma PartialLine(framing: TcpFraming, max: nat, u: Unit, n: nat)
    requires max >= 1 && u.Line? && WellFormed(framing, max, u) && n < |Raw(u)|
    ensures StepOf(framing, max, Raw(u)[..n]) == Wait
  {
    var p, line := Raw(u)[..n], Unended(u);
    assert p == line[..n];
    if framing == Auto {
      DetectPrefix(line, n);
      if u.crlf {
        DetectLine(u.payload, [CR]);
      } else {
        assert line == u.payload;
      }
    }
    if Detect(p).Some? {
      assert SP in u.payload by { assert p[IndexOf(p, SP)] == SP; }
    }
  }

  lemma DetectPrefix(s: seq<Byte>, n: nat)
    requires n <= |s|
    ensures Detect(s[..n]).Some? ==> Detect(s) == Detect(s[..n])
  {
    DetectAppend(s[..n], s[n..]);
    assert s == s[..n] + s[n..];
  }

  predicate HasSpace(u: Unit) {
    SP in Raw(u)
  }

  /** In Auto nothing is decided before a space arrives, so the last message needs one. */
  predicate EndsDecided(framing: TcpFraming, units: seq<Unit>) {
    framing == Auto && units != [] ==> HasSpace(units[|units| - 1])
  }

  /** Every prefix of a well-formed stream is accepted, and the whole stream is decoded. */
  lemma {:induction false} WellFormedPrefix(framing: TcpFraming, max: nat, units: seq<Unit>, n: nat)
    requires max >= 1 && n <= |RawAll(units)|
    requires forall u :: u in units ==> WellFormed(framing, max, u)
    ensures var d := Drain(framing, max, RawAll(units)[..n]);
            && d.error.None?
            && (n == |RawAll(units)| && EndsDecided(framing, units) ==>
                  d == Drained(Payloads(units), framing, [], None))
    decreases |units|
  {
    hide StepOf, WellFormed, Raw;
    EmptyWaits(framing, max);
    if units != [] {
      var u, more := units[0], units[1..];
      var whole := Raw(u) + RawAll(more);
      if n < |Raw(u)| {
        assert whole[..n] == Raw(u)[..n];
        PartialUnit(framing, max, u, n);
      } else {
        var tail := RawAll(more)[..n - |Raw(u)|];
        assert whole[..n] == Raw(u) + tail;
        WellFormedPrefix(framing, max, more, n - |Raw(u)|);
        if framing == Auto && SP !in Raw(u) + tail {
          Undecided(max, Raw(u) + tail);
          LastHasNoSpace(units, n);
        } else {
          UnitStep(framing, max, u, tail);
          NonEmptyRaw(u);
          assert (Raw(u) + tail)[|Raw(u)|..] == tail;
        }
      }
    }
  }

  lemma NonEmptyRaw(u: Unit)
    ensures Raw(u) != []
  {}

  lemma Undecided(max: nat, s: seq<Byte>)
    requires SP !in s
    ensures StepOf(Auto, max, s) == Wait
  {}

  lemma {:induction false} LastHasNoSpace(units: seq<Unit>, n: nat)
    requires units != [] && n <= |RawAll(units)| && SP !in RawAll(units)[..n]
    ensures n == |RawAll(units)| ==> !HasSpace(units[|units| - 1])
  {
    if n == |RawAll(units)| {
      assert RawAll(units)[..n] == RawAll(units);
      if |units| == 1 {
        assert RawAll(units) == Raw(units[0]) + [];
      } else {
        assert SP !in RawAll(units[1..]);
        var more := RawAll(units[1..]);
        assert more[..|more|] == more;
        LastHasNoSpace(units[1..], |more|);
      }
    }
  }

  /** Mixed-framing round trip: the receiver gets exactly the messages sent, in order, with
      nothing left over, however the network cuts the stream. */
  lemma RoundTrip(framing: TcpFraming, max: nat, units: seq<Unit>, chunks: seq<seq<Byte>>)
    requires max >= 1 && EndsDecided(framing, units)
    requires forall u :: u in units ==> WellFormed(framing, max, u)
    requires Flatten(chunks) == RawAll(units)
    ensures Feed(framing, max, [], chunks) == Drained(Payloads(units), framing, [], None)
  {
    var s := RawAll(units);
    forall n | 0 <= n <= |s|
      ensures Drain(framing, max, s[..n]).error.None?
    {
      WellFormedPrefix(framing, max, units, n);
    }
    EveryChunkingAccepted(framing, max, s, chunks);
    WellFormedPrefix(framing, max, units, |s|);
    assert s[..|s|] == s;
  }

  /** The ceiling is not a bound on lines: one that arrives with its LF is delivered however long it is.
      Pushed without the LF, it is refused exactly when it has reached the ceiling. */
  lemma {:induction false} CeilingDependsOnCut(max: nat, line: seq<Byte>)
    requires max >= 1 && LF !in line
    ensures Drain(NonTransparent, max, line + [LF]) == Drained([StripCr(line)], NonTransparent, [], None)
    ensures Drain(NonTransparent, max, line).error ==
            if |line| >= max then Some(FrameTooLarge(|line|, max)) else None
  {
    hide StripCr;
    LineDrains(max, line);
    IndexOfAppend(line, [], LF);
    assert line + [] == line;
    DrainUnfolds(NonTransparent, max, line);
  }

  lemma LineDrains(max: nat, line: seq<Byte>)
    requires max >= 1 && LF !in line
    ensures Drain(NonTransparent, max, line + [LF]) == Drained([StripCr(line)], NonTransparent, [], None)
  {
    hide LineStep, Drain, StripCr;
    var s := line + [LF];
    assert line + [LF] + [] == s && s[|s|..] == [];
    LineStepAt(max, line, []);
    EmptyWaits(NonTransparent, max);
    DrainUnfolds(NonTransparent, max, s);
    DrainUnfolds(NonTransparent, max, []);
  }

  /** The canonical sender: every payload up to the ceiling behind its decimal length. */
  lemma DecimalHeaderWellFormed(framing: TcpFraming, max: nat, payload: Frame)
    requires framing != NonTransparent && |payload| <= max
    requires |Decimal(|payload|)| + 1 + |payload| <= USIZE_MAX
    ensures WellFormed(framing, max, Counted(Decimal(|payload|), payload))
  {
    DecimalParses(|payload|);
  }

  /** The canonical line: it begins with no digit, holds a space and no LF, does not end in CR, and fits the
      ceiling with its ending. */
  lemma LineWellFormed(framing: TcpFraming, max: nat, payload: Frame, crlf: bool)
    requires framing != OctetCounting && |payload| + 2 <= max
    requires payload != [] && !(48 <= payload[0] <= 57) && 32 in payload
    requires 10 !in payload && payload[|payload| - 1] != 13
    ensures WellFormed(framing, max, Line(payload, crlf)) && HasSpace(Line(payload, crlf))
  {
    var space := IndexOf(payload, SP);
    assert space > 0 && space <= |payload| ==> payload[..space][0] == payload[0];
    assert 32 in Raw(Line(payload, crlf)) by {
      var k :| 0 <= k < |payload| && payload[k] == 32;
      assert Raw(Line(payload, crlf))[k] == 32;
    }
  }
}
