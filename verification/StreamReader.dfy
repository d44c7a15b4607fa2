/** The buffered line reader of tpt-telemetry-core: an array compacted and grown in place over a
    reader that may return short reads, be interrupted, or fail. */
module StreamReading {
  import opened Wrappers
  import opened Bytes

  // ---- The reader underneath ----

  datatype IoError = InvalidData | Device(code: int)

  datatype ReadResult = Read(n: nat) | Interrupted | Failed(error: IoError)

  /** What the source will do: offer bytes (an empty offer reads as end of file), be interrupted,
      or fail. A source with nothing left is at end of file. */
  datatype Event = Bytes(data: seq<Byte>) | Interrupt | Fail(error: IoError)

  /** The bytes a source yields before it ends or fails. */
  function Content(script: seq<Event>): seq<Byte> {
    if script == [] then []
    else match script[0]
      case Interrupt => Content(script[1..])
      case Fail(_) => []
      case Bytes(data) => if data == [] then [] else data + Content(script[1..])
  }

  /** The error a source ends with, if it fails. */
  function Ending(script: seq<Event>): Option<IoError> {
    if script == [] then None
    else match script[0]
      case Interrupt => Ending(script[1..])
      case Fail(error) => Some(error)
      case Bytes(data) => if data == [] then None else Ending(script[1..])
  }

  function Fuel(script: seq<Event>): nat {
    if script == [] then 0
    else 1 + (if script[0].Bytes? then |script[0].data| else 0) + Fuel(script[1..])
  }

  /** The most bytes a single offer holds. */
  function Largest(script: seq<Event>): nat {
    if script == [] then 0
    else
      var later := Largest(script[1..]);
      if script[0].Bytes? && |script[0].data| > later then |script[0].data| else later
  }

  /** What is left of a script once `n` bytes of its first offer are taken. */
  function Take(script: seq<Event>, n: nat): seq<Event>
    requires script != [] && script[0].Bytes? && n <= |script[0].data|
  {
    if n == |script[0].data| then script[1..] else [Bytes(script[0].data[n..])] + script[1..]
  }

  lemma Rejoin(data: seq<Byte>, n: nat, tail: seq<Byte>)
    requires n <= |data|
    ensures data[..n] + (data[n..] + tail) == data + tail
  {
    assert data[..n] + data[n..] == data;
  }

  lemma TakeKeeps(script: seq<Event>, n: nat)
    requires script != [] && script[0].Bytes? && 0 < n <= |script[0].data|
    ensures var data, left := script[0].data, Take(script, n);
            && Content(script) == data[..n] + Content(left)
            && Ending(left) == Ending(script)
            && Fuel(left) < Fuel(script)
            && n <= Largest(script) && Largest(left) <= Largest(script)
  {
    var data, later := script[0].data, script[1..];
    if n < |data| {
      assert Take(script, n)[1..] == later;
      Rejoin(data, n, Content(later));
    } else {
      assert data[..n] == data;
    }
  }

  /** What the first event says about the whole script. */
  lemma ScriptCases(script: seq<Event>)
    ensures script == [] || script[0] == Bytes([]) ==> Content(script) == [] && Ending(script) == None
    ensures script != [] && script[0].Fail? ==> Content(script) == [] && Ending(script) == Some(script[0].error)
    ensures script != [] && script[0].Interrupt? ==>
              && Content(script[1..]) == Content(script) && Ending(script[1..]) == Ending(script)
              && Fuel(script[1..]) < Fuel(script)
    ensures script != [] ==> Largest(script[1..]) <= Largest(script)
  {}

  class Source {
    var script: seq<Event>

    constructor (script: seq<Event>)
      ensures this.script == script
    {
      this.script := script;
    }

    /** Fill a part of `buf[lo..]`: at most one offer, and no more than fits. */
    method ReadInto(buf: array<Byte>, lo: nat) returns (r: ReadResult)
      requires lo < buf.Length
      modifies this, buf
      ensures buf[..lo] == old(buf[..lo])
      ensures r.Read? ==> lo + r.n <= buf.Length
      ensures r == Read(0) ==> Content(old(script)) == [] && Ending(old(script)) == None
      ensures r.Read? && r.n > 0 ==>
                Content(old(script)) == buf[lo..lo + r.n] + Content(script) && Ending(script) == Ending(old(script))
      ensures r.Interrupted? ==> Content(script) == Content(old(script)) && Ending(script) == Ending(old(script))
      ensures r.Failed? ==> Content(old(script)) == [] && Ending(old(script)) == Some(r.error)
      ensures (r.Read? && r.n > 0) || r.Interrupted? ==> Fuel(script) < Fuel(old(script))
      ensures r.Read? ==> r.n <= Largest(old(script))
      ensures Largest(script) <= Largest(old(script))
    {
      ScriptCases(script);
      hide Content, Ending, Fuel, Largest;
      if script == [] {
        return Read(0);
      }
      match script[0] {
        case Interrupt =>
          script := script[1..];
          return Interrupted;
        case Fail(error) =>
          script := script[1..];
          return Failed(error);
        case Bytes(data) =>
          var n := if |data| <= buf.Length - lo then |data| else buf.Length - lo;
          forall k | 0 <= k < n {
            buf[lo + k] := data[k];
          }
          assert buf[lo..lo + n] == data[..n];
          if n > 0 {
            TakeKeeps(script, n);
          }
          script := if n == |data| then script[1..] else [Bytes(data[n..])] + script[1..];
          return Read(n);
      }
    }
  }

  // ---- What the line reader means ----

  /** What is left of the input as the caller sees it: the bytes not yet returned, whether reading
      has stopped, the recorded error, and the error the source would end with. */
  datatype View = View(rest: seq<Byte>, done: bool, error: Option<IoError>, ending: Option<IoError>)

  predicate Terminated(rest: seq<Byte>) {
    IndexOf(rest, LF) < |rest|
  }

  function FirstLine(rest: seq<Byte>): seq<Byte>
    requires Terminated(rest)
  {
    StripCr(rest[..IndexOf(rest, LF)])
  }

  function LaterLines(rest: seq<Byte>): seq<Byte>
    requires Terminated(rest)
  {
    rest[IndexOf(rest, LF) + 1..]
  }

  /** One call of `next_line`, on views. */
  ghost predicate Returns(max: nat, v: View, line: Option<seq<Byte>>, w: View) {
    match line
    case Some(s) =>
      if Terminated(v.rest) then
        s == FirstLine(v.rest) && w == v.(rest := LaterLines(v.rest))
      else
        s == v.rest && s != [] && (v.done || |s| <= max) && Stopped(v, w) && w.rest == []
    case None =>
      (v.rest == [] && w.rest == [] && Stopped(v, w)) || Overlong(max, v, w)
  }

  /** Reading has stopped; it stopped cleanly, or with the source's error, or had stopped before. */
  ghost predicate Stopped(v: View, w: View) {
    w.done && w.ending == None && w.error == if v.done || v.ending.None? then v.error else v.ending
  }

  /** More than `max` bytes arrived with no LF: the rest of the source is abandoned, but what arrived
      stays in the buffer. */
  ghost predicate Overlong(max: nat, v: View, w: View) {
    && !v.done && w.done && w.error == Some(InvalidData) && w.ending == None
    && max < |w.rest| <= |v.rest| && w.rest == v.rest[..|w.rest|] && LF !in w.rest
  }

  /** A line complete in the buffer `p` is the first line of all that is left. */
  lemma LineAtHand(p: seq<Byte>, tail: seq<Byte>)
    ensures Terminated(p) ==>
              && Terminated(p + tail) && IndexOf(p + tail, LF) == IndexOf(p, LF)
              && FirstLine(p + tail) == FirstLine(p) && LaterLines(p + tail) == LaterLines(p) + tail
    ensures !Terminated(p) ==> LF !in p
  {
    IndexOfAppend(p, tail, LF);
    var i := IndexOf(p, LF);
    if i < |p| {
      hide IndexOf;
      assert (p + tail)[..i] == p[..i];
      assert (p + tail)[i + 1..] == p[i + 1..] + tail;
    }
  }

  lemma Regroup(a: seq<Byte>, b: seq<Byte>, c: seq<Byte>)
    ensures a + (b + c) == a + b + c
  {}

  /** Where a call that began at `v` may stand before it returns: nothing returned yet, and if reading
      stopped during the call, no LF and no more than `max` bytes were left. */
  ghost predicate Reading(max: nat, v: View, w: View) {
    && w.rest == v.rest
    && (w == v || (!v.done && Stopped(v, w) && !Terminated(v.rest) && |v.rest| <= max))
  }

  lemma SameRest(max: nat, v: View, w: View)
    requires Reading(max, v, w)
    ensures w.rest == v.rest && (v.done ==> w.done)
  {}

  lemma ReadOn(max: nat, v: View, w: View, p: seq<Byte>, x: View)
    requires Reading(max, v, w) && !w.done && x.rest == w.rest
    requires x == w || (Stopped(w, x) && x.rest == p && !Terminated(p) && |p| <= max)
    ensures Reading(max, v, x) && w.rest == x.rest == v.rest
  {}

  lemma LineReturns(max: nat, v: View, w: View, n: nat)
    requires Reading(max, v, w) && Terminated(w.rest) && IndexOf(w.rest, LF) < n
    ensures Returns(max, v, Some(FirstLine(w.rest)), w.(rest := LaterLines(w.rest)))
    ensures !Overlong(max, v, w.(rest := LaterLines(w.rest))) && !TooLong(max, v.rest, n)
  {
    assert n <= |w.rest| ==> w.rest[..n][IndexOf(w.rest, LF)] == LF;
  }

  lemma TailReturns(max: nat, v: View, w: View)
    requires Reading(max, v, w) && w.done && !Terminated(w.rest) && (v.done ==> w.ending == None)
    ensures Returns(max, v, if w.rest == [] then None else Some(w.rest), w.(rest := []))
    ensures !Overlong(max, v, w.(rest := []))
    ensures !v.done ==> !TooLong(max, v.rest, |w.rest|)
    ensures w.rest != [] ==> !Terminated(v.rest)
  {}

  lemma TooLongReturns(max: nat, v: View, w: View, p: seq<Byte>, tail: seq<Byte>)
    requires Reading(max, v, w) && !w.done && w.rest == p + tail && LF !in p && |p| > max
    ensures var after := View(p, true, Some(InvalidData), None);
            Returns(max, v, None, after) && Overlong(max, v, after) && TooLong(max, v.rest, |p|) && !v.done
  {
    assert v.rest[..|p|] == p;
  }

  // ---- How much of a line each round has seen ----

  /** The first `n` bytes are over the ceiling and hold no LF. */
  predicate TooLong(max: nat, rest: seq<Byte>, n: nat) {
    max < n <= |rest| && LF !in rest[..n]
  }

  /** A round that saw `a` bytes found no LF and may read on; the read added at most `most`. */
  predicate GoesOn(max: nat, rest: seq<Byte>, most: nat, a: nat, b: nat) {
    && a <= max && a <= |rest| && LF !in rest[..a]
    && a <= b <= a + most && b <= |rest|
  }

  /** The bytes looked at round by round, the last round last. */
  predicate Scans(max: nat, rest: seq<Byte>, most: nat, scanned: seq<nat>) {
    && scanned != [] && scanned[|scanned| - 1] <= |rest|
    && (|scanned| > 1 ==>
          && GoesOn(max, rest, most, scanned[|scanned| - 2], scanned[|scanned| - 1])
          && Scans(max, rest, most, scanned[..|scanned| - 1]))
  }

  /** How a call ends: its last round looked at `seen` bytes and left `left` of them. It gives up on a
      line exactly when those bytes are too long, and returns a terminated line exactly from them. */
  ghost predicate Outcome(max: nat, v: View, line: Option<seq<Byte>>, w: View, seen: nat, left: nat) {
    && Returns(max, v, line, w)
    && (Overlong(max, v, w) <==> !v.done && TooLong(max, v.rest, seen))
    && (line.Some? && Terminated(v.rest) ==> seen == IndexOf(v.rest, LF) + 1 + left)
  }

  /** A terminated line is rejected exactly when a round looked at more than `max` bytes of it and not yet
      at its LF: however long it is, it is returned if its LF came with the read that crossed the ceiling. */
  lemma TerminatedRejectedIff(max: nat, v: View, line: Option<seq<Byte>>, w: View, seen: nat, left: nat)
    requires Outcome(max, v, line, w, seen, left) && Terminated(v.rest) && !v.done
    ensures line == if max < seen <= IndexOf(v.rest, LF) then None else Some(FirstLine(v.rest))
  {
    var m := IndexOf(v.rest, LF);
    if m < seen <= |v.rest| {
      assert v.rest[..seen][m] == LF;
    }
  }

  lemma StartScans(max: nat, v: View, most: nat, p: seq<Byte>)
    requires p <= v.rest
    ensures Scans(max, v.rest, most, [|p|]) && Reading(max, v, v)
  {}

  lemma ScanOn(max: nat, rest: seq<Byte>, most: nat, scanned: seq<nat>, p: seq<Byte>, n: nat)
    requires Scans(max, rest, most, scanned) && scanned[|scanned| - 1] == |p| <= max && p <= rest && LF !in p
    requires |p| <= n <= |p| + most && n <= |rest|
    ensures Scans(max, rest, most, scanned + [n])
  {
    assert (scanned + [n])[..|scanned|] == scanned;
  }

  // ---- Whole runs of `next_line` ----

  /** The lines of a whole stream: split on LF, one CR dropped from each terminated line, and a
      non-empty unterminated tail kept as it is. */
  function Lines(s: seq<Byte>): seq<seq<Byte>>
    decreases |s|
  {
    if Terminated(s) then [FirstLine(s)] + Lines(LaterLines(s))
    else if s == [] then [] else [s]
  }

  /** No run of bytes between LFs is longer than the ceiling. */
  predicate RunsBounded(max: nat, s: seq<Byte>)
    decreases |s|
  {
    IndexOf(s, LF) <= max && (Terminated(s) ==> RunsBounded(max, LaterLines(s)))
  }

  ghost predicate IsRun(max: nat, views: seq<View>, outs: seq<Option<seq<Byte>>>) {
    && |views| == |outs| + 1
    && forall k :: 0 <= k < |outs| ==> Returns(max, views[k], outs[k], views[k + 1])
  }

  lemma NoEarlier(s: seq<Byte>, n: nat)
    requires n <= |s| && (LF !in s[..n] || (n == |s| && LF !in s))
    ensures IndexOf(s, LF) >= n
  {
    assert forall k :: 0 <= k < n ==> s[k] == s[..n][k];
  }

  lemma BoundedNeverOverlong(max: nat, v: View, w: View)
    requires RunsBounded(max, v.rest)
    ensures !Overlong(max, v, w)
  {
    if Overlong(max, v, w) {
      NoEarlier(v.rest, |w.rest|);
    }
  }

  /** One call on a stream within the ceiling returns the first of its lines. */
  lemma SplitStep(max: nat, v: View, line: Option<seq<Byte>>, w: View)
    requires Returns(max, v, line, w) && RunsBounded(max, v.rest)
    ensures RunsBounded(max, w.rest)
    ensures line.Some? ==> Lines(v.rest) == [line.value] + Lines(w.rest)
    ensures line.None? ==> v.rest == [] && w.rest == [] && Lines(v.rest) == Lines(w.rest) == []
    ensures if line.None? then Stopped(v, w) else w == v.(rest := w.rest) || Stopped(v, w)
  {
    BoundedNeverOverlong(max, v, w);
  }

  /** The reader refines splitting the whole stream: for every reader behaviour, the calls return the
      lines in order and then `None` for ever, and once they do, the source's error is on record. */
  lemma {:induction false} RunIsSplit(max: nat, views: seq<View>, outs: seq<Option<seq<Byte>>>)
    requires IsRun(max, views, outs) && RunsBounded(max, views[0].rest)
    ensures var lines := Lines(views[0].rest);
            && (forall k :: 0 <= k < |outs| ==> outs[k] == if k < |lines| then Some(lines[k]) else None)
            && (forall k :: |lines| < k <= |outs| ==> views[k].rest == [] && Stopped(views[0], views[k]))
    decreases |outs|
  {
    hide RunsBounded, IndexOf, Overlong, Lines;
    if outs != [] {
      var v, w := views[0], views[1];
      assert Returns(max, v, outs[0], w);
      SplitStep(max, v, outs[0], w);
      assert IsRun(max, views[1..], outs[1..]);
      RunIsSplit(max, views[1..], outs[1..]);
      hide Returns, IsRun, FirstLine, LaterLines;
      assert forall k :: 1 <= k < |outs| ==> outs[k] == outs[1..][k - 1];
      assert forall k :: 1 <= k <= |outs| ==> views[k] == views[1..][k - 1];
    }
  }

  /** Without any bound the lines returned before the first `None` are still the first lines. */
  lemma {:induction false} RunIsPrefix(max: nat, views: seq<View>, outs: seq<Option<seq<Byte>>>)
    requires IsRun(max, views, outs) && forall k :: 0 <= k < |outs| ==> outs[k].Some?
    ensures |outs| <= |Lines(views[0].rest)|
    ensures forall k :: 0 <= k < |outs| ==> outs[k] == Some(Lines(views[0].rest)[k])
    decreases |outs|
  {
    if outs != [] {
      assert Returns(max, views[0], outs[0], views[1]);
      assert IsRun(max, views[1..], outs[1..]);
      RunIsPrefix(max, views[1..], outs[1..]);
      hide Returns, IsRun, FirstLine, LaterLines, IndexOf;
      assert forall k :: 1 <= k < |outs| ==> outs[k] == outs[1..][k - 1];
    }
  }

  /** An unterminated tail longer than the ceiling is always rejected. */
  lemma LongTailRejected(max: nat, v: View, line: Option<seq<Byte>>, w: View)
    requires Returns(max, v, line, w) && !v.done && !Terminated(v.rest) && |v.rest| > max
    ensures line == None && Overlong(max, v, w)
  {}

  /** After a line is rejected as too long the reader is not finished: the next call returns the
      bytes it had buffered, more than `max` of them, and only the calls after that return `None`. */
  lemma LeftoverAfterOverlong(max: nat, v: View, w: View, line: Option<seq<Byte>>, x: View)
    requires Overlong(max, v, w) && Returns(max, w, line, x)
    ensures line == Some(w.rest) && |w.rest| > max && x.rest == [] && x.error == Some(InvalidData)
    ensures forall next, y :: Returns(max, x, next, y) ==> next == None && y == x
  {
    NoEarlier(w.rest, |w.rest|);
  }

  /** `None` is final exactly when it does not give up on an over-long line. */
  lemma NoneIsFinalIff(max: nat, v: View, w: View)
    requires Returns(max, v, None, w)
    ensures !Overlong(max, v, w) <==>
            forall views, outs :: IsRun(max, views, outs) && views[0] == w ==>
                forall k :: 0 <= k < |outs| ==> outs[k] == None
  {
    if Overlong(max, v, w) {
      NoEarlier(w.rest, |w.rest|);
      var views, outs := [w, w.(rest := [])], [Some(w.rest)];
      assert Returns(max, w, Some(w.rest), w.(rest := []));
      assert IsRun(max, views, outs) && views[0] == w && outs[0] != None;
    } else {
      forall views, outs | IsRun(max, views, outs) && views[0] == w
        ensures forall k :: 0 <= k < |outs| ==> outs[k] == None
      {
        NothingMore(max, views, outs);
      }
    }
  }

  lemma {:induction false} NothingMore(max: nat, views: seq<View>, outs: seq<Option<seq<Byte>>>)
    requires IsRun(max, views, outs) && views[0].done && views[0].rest == []
    ensures forall k :: 0 <= k < |outs| ==> outs[k] == None
    decreases |outs|
  {
    if outs != [] {
      assert Returns(max, views[0], outs[0], views[1]);
      assert IsRun(max, views[1..], outs[1..]);
      NothingMore(max, views[1..], outs[1..]);
      hide Returns, IsRun;
      assert forall k :: 1 <= k < |outs| ==> outs[k] == outs[1..][k - 1];
    }
  }

  /** The calls return the lines of `s`, one each, and then `None`. */
  ghost predicate IsSplit(s: seq<Byte>, outs: seq<Option<seq<Byte>>>) {
    forall k :: 0 <= k < |outs| ==> outs[k] == if k < |Lines(s)| then Some(Lines(s)[k]) else None
  }

  /** Splitting is what every run does exactly when no line is over the ceiling; a longer one may be cut
      short. */
  lemma EveryRunSplitsIff(max: nat, v: View)
    requires !v.done
    ensures RunsBounded(max, v.rest) <==>
            forall views, outs :: IsRun(max, views, outs) && views[0] == v ==> IsSplit(v.rest, outs)
  {
    if RunsBounded(max, v.rest) {
      forall views, outs | IsRun(max, views, outs) && views[0] == v ensures IsSplit(v.rest, outs) {
        RunIsSplit(max, views, outs);
      }
    } else {
      var views, outs := CutShort(max, v);
      assert !IsSplit(v.rest, outs);
    }
  }

  /** A run that gives up on the first line over the ceiling. */
  lemma {:induction false} CutShort(max: nat, v: View) returns (views: seq<View>, outs: seq<Option<seq<Byte>>>)
    requires !v.done && !RunsBounded(max, v.rest)
    ensures IsRun(max, views, outs) && views[0] == v
    ensures 0 < |outs| <= |Lines(v.rest)| && outs[|outs| - 1] == None
    ensures Overlong(max, views[|outs| - 1], views[|outs|])
    decreases |v.rest|
  {
    var n := IndexOf(v.rest, LF);
    if n > max {
      views, outs := [v, View(v.rest[..n], true, Some(InvalidData), None)], [None];
      assert Overlong(max, v, views[1]);
    } else {
      var w, line := v.(rest := LaterLines(v.rest)), Some(FirstLine(v.rest));
      var later, more := CutShort(max, w);
      assert Returns(max, v, line, w);
      hide Returns, RunsBounded, Overlong, FirstLine, LaterLines, Terminated;
      RunFrom(max, v, line, later, more);
      views, outs := [v] + later, [line] + more;
    }
  }

  lemma RunFrom(max: nat, v: View, line: Option<seq<Byte>>, views: seq<View>, outs: seq<Option<seq<Byte>>>)
    requires IsRun(max, views, outs) && Returns(max, v, line, views[0])
    ensures IsRun(max, [v] + views, [line] + outs)
  {
    hide Returns;
  }

  const DEFAULT_MAX_LINE_LEN: nat := 64 * 1024 * 1024

  class StreamReader {
    const reader: Source
    var buf: array<Byte>
    var start: nat
    var end: nat
    var done: bool
    var lastError: Option<IoError>
    var maxLineLen: nat
    // The capacity when the ceiling was set.
    ghost var initial: nat

    /** The buffer stays within the larger of its first size and twice the ceiling plus one. */
    ghost predicate Valid()
      reads this
    {
      && start <= end <= buf.Length
      && 1 <= maxLineLen
      && buf.Length <= (if initial > 2 * maxLineLen + 1 then initial else 2 * maxLineLen + 1)
    }

    ghost function Pending(): seq<Byte>
      reads this, buf
      requires Valid()
    {
      buf[start..end]
    }

    ghost function Now(): View
      reads this, buf, reader
      requires Valid()
    {
      if done then View(Pending(), true, lastError, None)
      else View(Pending() + Content(reader.script), false, lastError, Ending(reader.script))
    }

    /** What the fields say about the view. */
    lemma AtHand()
      requires Valid()
      ensures Now().done == done && end - start == |Pending()| && Now().error == lastError
      ensures !done ==> Now().ending == Ending(reader.script)
      ensures Now().rest == Pending() + (if done then [] else Content(reader.script))
      ensures Pending() <= Now().rest && (done ==> Now().rest == Pending() && Now().ending == None)
    {
      hide Content;
      assert Pending() + [] == Pending();
    }

    constructor WithCapacity(reader: Source, cap: nat)
      ensures Valid() && fresh(buf) && this.reader == reader && maxLineLen == 67_108_864
      ensures initial == buf.Length == cap
      ensures Now() == View(Content(reader.script), false, None, Ending(reader.script))
    {
      this.reader := reader;
      buf := new Byte[cap](_ => 0);
      start, end, done, lastError, maxLineLen, initial := 0, 0, false, None, DEFAULT_MAX_LINE_LEN, cap;
    }

    method WithMaxLineLen(max: nat)
      requires Valid()
      modifies this`maxLineLen, this`initial
      ensures Valid() && maxLineLen == (if max >= 1 then max else 1) && initial == buf.Length
      ensures Now() == old(Now())
    {
      maxLineLen, initial := if max >= 1 then max else 1, buf.Length;
    }

    /** One call. `scanned` tells how many pending bytes each round looked at: the first round what was
        left over, each later one what the reads before it added. */
    method NextLine() returns (line: Option<seq<Byte>>, ghost scanned: seq<nat>)
      requires Valid()
      modifies this`start, this`end, this`buf, this`done, this`lastError, buf, reader
      ensures Valid() && (buf == old(buf) || fresh(buf))
      ensures line.Some? ==> |line.value| <= buf.Length
      ensures scanned != [] && scanned[0] == |old(Pending())|
      ensures Scans(maxLineLen, old(Now()).rest, Largest(old(reader.script)), scanned)
      ensures Outcome(maxLineLen, old(Now()), line, Now(), scanned[|scanned| - 1], |Pending()|)
      ensures Largest(reader.script) <= Largest(old(reader.script))
    {
      hide Content, Ending, Fuel, Largest, Terminated, IndexOf, Stopped, Reading, Outcome, Scans, Valid, Pending, Now;
      ghost var v, most := Now(), Largest(reader.script);
      scanned := [|Pending()|];
      AtHand();
      StartScans(maxLineLen, v, most, Pending());
      while true
        invariant Valid() && (buf == old(buf) || fresh(buf))
        invariant Reading(maxLineLen, v, Now()) && (v.done ==> done)
        invariant scanned != [] && scanned[|scanned| - 1] == |Pending()|
        invariant Scans(maxLineLen, v.rest, most, scanned)
        invariant scanned[0] == |old(Pending())| && Largest(reader.script) <= most
        decreases !done, Fuel(reader.script)
      {
        var settled;
        settled, line := Settle(v);
        if settled {
          return;
        }
        ReadAgain(v, most, scanned);
        scanned := scanned + [|Pending()|];
      }
    }

    /** Read once more, because the buffer holds no line. */
    method ReadAgain(ghost v: View, ghost most: nat, ghost scanned: seq<nat>)
      requires Valid() && !done && |Pending()| <= maxLineLen && !Terminated(Pending()) && LF !in Pending()
      requires Reading(maxLineLen, v, Now()) && Scans(maxLineLen, v.rest, most, scanned)
      requires scanned[|scanned| - 1] == |Pending()| && Largest(reader.script) <= most
      modifies this`start, this`end, this`buf, this`done, this`lastError, buf, reader
      ensures Valid() && (buf == old(buf) || fresh(buf))
      ensures Reading(maxLineLen, v, Now())
      ensures Scans(maxLineLen, v.rest, most, scanned + [|Pending()|]) && Largest(reader.script) <= most
      ensures done || Fuel(reader.script) < old(Fuel(reader.script))
    {
      hide Content, Ending, Fuel, Largest, Terminated, Stopped, Reading, Scans, Valid, Pending, Now;
      AtHand();
      ghost var w, pending := Now(), Pending();
      Fill();
      AtHand();
      ReadOn(maxLineLen, v, w, pending, Now());
      ScanOn(maxLineLen, v.rest, most, scanned, pending, |Pending()|);
    }

    /** Return what the buffer has to give, or find that another read is needed. */
    method Settle(ghost v: View) returns (settled: bool, line: Option<seq<Byte>>)
      requires Valid() && Reading(maxLineLen, v, Now()) && (v.done ==> done)
      modifies this`start, this`done, this`lastError
      ensures Valid()
      ensures settled ==> Outcome(maxLineLen, v, line, Now(), |old(Pending())|, |Pending()|)
      ensures settled && line.Some? ==> |line.value| <= buf.Length
      ensures !settled ==> Pending() == old(Pending()) && Now() == old(Now())
      ensures !settled ==> !old(done) && !done && |Pending()| <= maxLineLen
      ensures !settled ==> !Terminated(Pending()) && LF !in Pending()
    {
      hide Content, Ending, Terminated, IndexOf, FirstLine, LaterLines, Stopped, Reading, Returns, Overlong, TooLong,
           Valid, Pending, Now;
      AtHand();
      SameRest(maxLineLen, v, Now());
      ghost var w, pending, tail := Now(), Pending(), if done then [] else Content(reader.script);
      line := TakeLine();
      if line.Some? {
        LineReturns(maxLineLen, v, w, |pending|);
        return true, line;
      }
      if done {
        TailReturns(maxLineLen, v, w);
        line := Unterminated();
        return true, line;
      }
      AtHand();
      if end - start > maxLineLen {
        TooLongReturns(maxLineLen, v, w, pending, tail);
        Abandon();
        return true, None;
      }
      return false, None;
    }

    /** The first complete line, if the buffer holds it. */
    method TakeLine() returns (line: Option<seq<Byte>>)
      requires Valid()
      modifies this`start
      ensures Valid()
      ensures line.Some? ==>
                var rest := old(Now().rest);
                && Terminated(rest) && line.value == FirstLine(rest) && |line.value| <= buf.Length
                && Now() == old(Now()).(rest := LaterLines(rest))
                && |old(Pending())| == IndexOf(rest, LF) + 1 + |Pending()|
      ensures line.None? ==> Pending() == old(Pending()) && Now() == old(Now())
      ensures line.None? ==> !Terminated(Pending()) && LF !in Pending()
    {
      ghost var p, tail := Pending(), if done then [] else Content(reader.script);
      LineAtHand(p, tail);
      hide IndexOf, Content, Ending, FirstLine, LaterLines, Terminated;
      line := ScanLine();
    }

    /** Look for an LF in the buffer. */
    method ScanLine() returns (line: Option<seq<Byte>>)
      requires Valid()
      modifies this`start
      ensures Valid()
      ensures line.Some? ==>
                var p := old(Pending());
                && Terminated(p) && line.value == FirstLine(p) && |line.value| <= buf.Length
                && Pending() == LaterLines(p) && |p| == IndexOf(p, LF) + 1 + |Pending()|
      ensures line.None? ==> start == old(start) && !Terminated(Pending())
    {
      hide IndexOf;
      ghost var p := Pending();
      var i := IndexOf(buf[start..end], LF);
      if i < end - start {
        var lineEnd := start + i;
        var e := lineEnd;
        if e > start && buf[e - 1] == CR {
          e := e - 1;
        }
        assert p[..i] == buf[start..lineEnd];
        line := Some(buf[start..e]);
        start := lineEnd + 1;
      } else {
        line := None;
      }
    }

    /** Give up on a line that is too long, and keep what is buffered of it. */
    method Abandon()
      requires Valid()
      modifies this`done, this`lastError
      ensures Valid() && Pending() == old(Pending()) && Now() == View(Pending(), true, Some(InvalidData), None)
    {
      lastError, done := Some(InvalidData), true;
    }

    /** The bytes after the last LF, once reading has stopped. */
    method Unterminated() returns (line: Option<seq<Byte>>)
      requires Valid() && done
      modifies this`start
      ensures Valid() && Now() == old(Now()).(rest := [])
      ensures line == if old(Pending()) == [] then None else Some(old(Pending()))
    {
      if start < end {
        line := Some(buf[start..end]);
        start := end;
      } else {
        line := None;
      }
    }

    /** Compact, make room, and read once. */
    method Fill()
      requires Valid() && !done && end - start <= maxLineLen
      modifies this`start, this`end, this`buf, this`done, this`lastError, buf, reader
      ensures Valid() && (buf == old(buf) || fresh(buf))
      ensures Now().rest == old(Now().rest)
      ensures if done then Stopped(old(Now()), Now()) && Now().rest == old(Pending())
              else Now() == old(Now()) && Fuel(reader.script) < old(Fuel(reader.script))
      ensures |old(Pending())| <= |Pending()| <= |old(Pending())| + Largest(old(reader.script))
      ensures Largest(reader.script) <= Largest(old(reader.script))
    {
      hide Content, Ending, Fuel, Largest, Stopped;
      Compact();
      Grow();
      ReadMore();
    }

    /** One read into the free part of the buffer, which is never empty. */
    method ReadMore()
      requires Valid() && !done && start == 0 && end < buf.Length
      modifies this`end, this`done, this`lastError, buf, reader
      ensures Valid() && Now().rest == old(Now().rest)
      ensures if done then Stopped(old(Now()), Now()) && Now().rest == old(Pending())
              else Now() == old(Now()) && Fuel(reader.script) < old(Fuel(reader.script))
      ensures |old(Pending())| <= |Pending()| <= |old(Pending())| + Largest(old(reader.script))
      ensures Largest(reader.script) <= Largest(old(reader.script))
    {
      hide Content, Ending, Fuel, Largest;
      ghost var from, pending := end, Pending();
      assert buf[..end] == pending;
      var r := reader.ReadInto(buf, end);
      match r {
        case Read(n) =>
          ghost var got := buf[from..from + n];
          assert buf[..from + n] == pending + got;
          Regroup(pending, got, Content(reader.script));
          if n == 0 {
            done := true;
          }
          end := end + n;
        case Interrupted =>
        case Failed(error) =>
          lastError, done := Some(error), true;
      }
    }

    /** Move the pending bytes to the front (`copy_within`). */
    method Compact()
      requires Valid()
      modifies this`start, this`end, buf
      ensures Valid() && start == 0 && Pending() == old(Pending())
    {
      if start > 0 {
        ghost var pending := Pending();
        var n := end - start;
        forall k | 0 <= k < n {
          buf[k] := buf[start + k];
        }
        start, end := 0, n;
        assert Pending() == pending;
      }
    }

    /** Make room when the buffer is full (`resize`). */
    method Grow()
      requires Valid() && start == 0 && end <= maxLineLen
      modifies this`buf
      ensures Valid() && Pending() == old(Pending()) && end < buf.Length
      ensures buf == old(buf) || fresh(buf)
    {
      if end == buf.Length {
        ghost var pending := Pending();
        var bigger := new Byte[buf.Length * 2 + 1](
          k requires k >= 0 reads this, buf => if k < buf.Length then buf[k] else 0);
        buf := bigger;
        assert Pending() == pending;
      }
    }
  }

  // ---- Reading to the end ----

  /** Where a reading loop that began at `v` stands at `w` with these lines read. */
  ghost predicate ReadSoFar(max: nat, v: View, lines: seq<seq<Byte>>, w: View) {
    && Lines(v.rest) == lines + Lines(w.rest)
    && (RunsBounded(max, v.rest) ==> RunsBounded(max, w.rest))
    && (w == v.(rest := w.rest) || (Stopped(v, w) && w.rest == []))
    && (v.done ==> w.done)
  }

  lemma ReadLine(max: nat, v: View, lines: seq<seq<Byte>>, w: View, line: Option<seq<Byte>>, x: View)
    requires ReadSoFar(max, v, lines, w) && Returns(max, w, line, x)
    ensures line.Some? ==> ReadSoFar(max, v, lines + [line.value], x) && |x.rest| < |w.rest|
    ensures line.None? && !Overlong(max, w, x) ==> lines == Lines(v.rest) && Stopped(v, x) && x.rest == []
    ensures Overlong(max, w, x) ==> !v.done && !RunsBounded(max, v.rest) && lines < Lines(v.rest)
  {
    hide Lines, RunsBounded, FirstLine, LaterLines;
    LinesReturned(max, w, line, x);
    if line.Some? {
      assert lines + ([line.value] + Lines(x.rest)) == lines + [line.value] + Lines(x.rest);
    } else if !Overlong(max, w, x) {
      assert lines + [] == lines;
    }
  }

  /** What one call takes from the lines of the stream. */
  lemma LinesReturned(max: nat, w: View, line: Option<seq<Byte>>, x: View)
    requires Returns(max, w, line, x)
    ensures line.Some? ==> Lines(w.rest) == [line.value] + Lines(x.rest) && |x.rest| < |w.rest|
    ensures line.Some? && RunsBounded(max, w.rest) ==> RunsBounded(max, x.rest)
    ensures line.Some? ==> x == w.(rest := x.rest) || (Stopped(w, x) && x.rest == [])
    ensures line.None? && !Overlong(max, w, x) ==> Lines(w.rest) == [] && Stopped(w, x) && x.rest == []
    ensures Overlong(max, w, x) ==> Lines(w.rest) != [] && !RunsBounded(max, w.rest) && !w.done && line.None?
  {
    if Overlong(max, w, x) {
      NoEarlier(w.rest, |x.rest|);
    }
  }

  /** When reads add one byte at a time, a call that starts with an empty buffer meets the LF as soon as
      it arrives: it gives up exactly on a line over the ceiling, and leaves nothing behind. */
  lemma OneByteAtATime(max: nat, v: View, line: Option<seq<Byte>>, w: View, most: nat, scanned: seq<nat>, left: nat)
    requires !v.done && most <= 1 && Scans(max, v.rest, most, scanned) && scanned[0] == 0
    requires Outcome(max, v, line, w, scanned[|scanned| - 1], left)
    ensures Overlong(max, v, w) <==> IndexOf(v.rest, LF) > max
    ensures line.Some? && Terminated(v.rest) ==> left == 0
  {
    var n, m := |scanned|, IndexOf(v.rest, LF);
    if n > 1 {
      NoEarlier(v.rest, scanned[n - 2]);
      assert m < scanned[n - 1] ==> v.rest[..scanned[n - 1]][m] == LF;
      if TooLong(max, v.rest, scanned[n - 1]) {
        NoEarlier(v.rest, scanned[n - 1]);
      }
    }
  }

  lemma SlowLine(max: nat, w: View, line: Option<seq<Byte>>, x: View, most: nat, scanned: seq<nat>, left: nat)
    requires most <= 1 && Scans(max, w.rest, most, scanned) && Outcome(max, w, line, x, scanned[|scanned| - 1], left)
    requires if w.done then w.rest == [] else scanned[0] == 0
    ensures line.Some? ==> (RunsBounded(max, w.rest) <==> RunsBounded(max, x.rest)) && (x.done || left == 0)
    ensures line.None? && !Overlong(max, w, x) ==> RunsBounded(max, w.rest)
  {
    if !w.done {
      OneByteAtATime(max, w, line, x, most, scanned, left);
    }
    hide Scans, Overlong;
  }

  lemma StopsEmpty(max: nat, v: View, lines: seq<seq<Byte>>, w: View)
    requires ReadSoFar(max, v, lines, w)
    ensures !v.done && w.done ==> w.rest == []
  {}

  lemma StoppedError(v: View, x: View)
    ensures Stopped(v, x) && !v.done ==> x.error == if v.ending.None? then v.error else v.ending
  {}

  lemma StartReading(max: nat, v: View)
    ensures ReadSoFar(max, v, [], v)
  {}

  /** `while let Some(line) = reader.next_line()`: the lines of the whole stream, unless one is given up
      on. With reads of one byte, giving up happens exactly when a line is over the ceiling. */
  method ReadLines(reader: StreamReader) returns (lines: seq<seq<Byte>>, ghost gaveUp: bool)
    requires reader.Valid()
    modifies reader, reader.buf, reader.reader
    ensures reader.Valid() && reader.maxLineLen == old(reader.maxLineLen)
    ensures var v, w := old(reader.Now()), reader.Now();
            if gaveUp then
              lines < Lines(v.rest) && !v.done && !RunsBounded(reader.maxLineLen, v.rest)
                  && w.error == Some(InvalidData)
            else
              lines == Lines(v.rest) && Stopped(v, w) && w.rest == []
    ensures !gaveUp && !old(reader.done) ==>
              reader.lastError == (if Ending(old(reader.reader.script)).None? then old(reader.lastError)
                                   else Ending(old(reader.reader.script)))
    ensures !old(reader.done) && old(reader.Pending()) == [] && Largest(old(reader.reader.script)) <= 1 ==>
              (gaveUp <==> !RunsBounded(reader.maxLineLen, old(reader.Now()).rest))
  {
    hide Content, Ending, Largest, Lines, RunsBounded, Stopped, ReadSoFar, Returns, Outcome, Scans;
    hide StreamReader.Valid, StreamReader.Pending, StreamReader.Now;
    ghost var v, max := reader.Now(), reader.maxLineLen;
    ghost var slow := !reader.done && reader.Pending() == [] && Largest(reader.reader.script) <= 1;
    lines, gaveUp := [], false;
    StartReading(max, v);
    reader.AtHand();
    while true
      invariant reader.Valid() && reader.maxLineLen == max && (reader.buf == old(reader.buf) || fresh(reader.buf))
      invariant ReadSoFar(max, v, lines, reader.Now())
      invariant slow ==> Largest(reader.reader.script) <= 1 && (reader.done || reader.Pending() == [])
      invariant slow ==> (RunsBounded(max, v.rest) <==> RunsBounded(max, reader.Now().rest))
      decreases |reader.Now().rest|
    {
      ghost var w, most := reader.Now(), Largest(reader.reader.script);
      StopsEmpty(max, v, lines, w);
      reader.AtHand();
      var line;
      ghost var scanned;
      line, scanned := reader.NextLine();
      ghost var x := reader.Now();
      reader.AtHand();
      CallReturns(max, w, line, x, scanned[|scanned| - 1], |reader.Pending()|);
      ReadLine(max, v, lines, w, line, x);
      if slow {
        SlowLine(max, w, line, x, most, scanned, |reader.Pending()|);
      }
      if line.None? {
        gaveUp := Overlong(max, w, x);
        StoppedError(v, x);
        return;
      }
      lines := lines + [line.value];
    }
  }

  lemma CallReturns(max: nat, v: View, line: Option<seq<Byte>>, w: View, seen: nat, left: nat)
    requires Outcome(max, v, line, w, seen, left)
    ensures Returns(max, v, line, w)
  {}

  // ---- Every line over the ceiling can be rejected ----

  /** A source that offers one byte at a time. */
  function ByteByByte(s: seq<Byte>): seq<Event> {
    if s == [] then [] else [Bytes([s[0]])] + ByteByByte(s[1..])
  }

  lemma {:induction false} ByteByByteYields(s: seq<Byte>)
    ensures Content(ByteByByte(s)) == s && Ending(ByteByByte(s)) == None && Largest(ByteByByte(s)) <= 1
  {
    if s != [] {
      var later := ByteByByte(s[1..]);
      ByteByByteYields(s[1..]);
      assert ByteByByte(s)[1..] == later && [s[0]] + s[1..] == s;
    }
  }

  /** A fresh reader over a trickling source: it gives up exactly when a line is over the ceiling, whatever
      the stream and the first buffer, and then it has returned some of the lines but not all. */
  method ReadTrickle(s: seq<Byte>, cap: nat, max: nat) returns (lines: seq<seq<Byte>>, ghost gaveUp: bool)
    ensures gaveUp <==> !RunsBounded(if max >= 1 then max else 1, s)
    ensures if RunsBounded(if max >= 1 then max else 1, s) then lines == Lines(s) else lines < Lines(s)
  {
    hide Content, Ending, Largest, Lines, RunsBounded, ByteByByte;
    ByteByByteYields(s);
    var source := new Source(ByteByByte(s));
    var reader := new StreamReader.WithCapacity(source, cap);
    reader.WithMaxLineLen(max);
    lines, gaveUp := ReadLines(reader);
  }

  // ---- Lines as they are written ----

  /** A line and how it ends: with CR LF, or with LF alone. */
  type WrittenLine = (seq<Byte>, bool)

  /** The line with its CR, if it is written with one. */
  function WithCr(line: WrittenLine): seq<Byte> {
    if line.1 then line.0 + [13] else line.0
  }

  function Stream(lines: seq<WrittenLine>): seq<Byte> {
    if lines == [] then [] else WithCr(lines[0]) + [10] + Stream(lines[1..])
  }

  /** A line holds no LF, and one written with LF alone does not end in CR. */
  predicate Writable(line: WrittenLine) {
    10 !in line.0 && (line.1 || line.0 == [] || line.0[|line.0| - 1] != 13)
  }

  function Contents(lines: seq<WrittenLine>): seq<seq<Byte>> {
    seq(|lines|, k requires 0 <= k < |lines| => lines[k].0)
  }

  lemma FirstWritten(line: WrittenLine, later: seq<Byte>)
    requires Writable(line)
    ensures var s := WithCr(line) + [10] + later;
            && Terminated(s) && IndexOf(s, LF) == |WithCr(line)|
            && FirstLine(s) == line.0 && LaterLines(s) == later
  {
    var body := WithCr(line);
    var s := body + [10] + later;
    assert s == body + ([10] + later);
    assert 10 !in body;
    IndexOfAppend(body, [10] + later, LF);
    assert s[..|body|] == body && s[|body| + 1..] == later;
    assert line.1 ==> body[..|body| - 1] == line.0;
  }

  lemma TailWritten(tail: seq<Byte>)
    requires 10 !in tail
    ensures !Terminated(tail) && IndexOf(tail, LF) == |tail|
  {}

  /** Lines written with either ending, and a tail without one, are read back: each line without its ending,
      and the tail as it is. */
  lemma {:induction false} WrittenLinesBack(lines: seq<WrittenLine>, tail: seq<Byte>)
    requires 10 !in tail && forall k :: 0 <= k < |lines| ==> Writable(lines[k])
    ensures Lines(Stream(lines) + tail) == Contents(lines) + if tail == [] then [] else [tail]
  {
    hide Writable, WithCr, FirstLine, LaterLines, Terminated, IndexOf;
    if lines == [] {
      TailWritten(tail);
      assert Stream(lines) + tail == tail;
    } else {
      var later := Stream(lines[1..]) + tail;
      WrittenLinesBack(lines[1..], tail);
      FirstWritten(lines[0], later);
      assert Stream(lines) + tail == WithCr(lines[0]) + [10] + later;
      assert Contents(lines) == [lines[0].0] + Contents(lines[1..]);
    }
  }

  /** The ceiling is on a line with its CR, but without its LF. */
  lemma {:induction false} WrittenBoundedIff(max: nat, lines: seq<WrittenLine>, tail: seq<Byte>)
    requires 10 !in tail && forall k :: 0 <= k < |lines| ==> Writable(lines[k])
    ensures RunsBounded(max, Stream(lines) + tail) <==>
            |tail| <= max && forall k :: 0 <= k < |lines| ==> |WithCr(lines[k])| <= max
  {
    hide Writable, WithCr, FirstLine, LaterLines, Terminated, IndexOf;
    if lines == [] {
      TailWritten(tail);
      assert Stream(lines) + tail == tail;
    } else {
      var later := Stream(lines[1..]) + tail;
      WrittenBoundedIff(max, lines[1..], tail);
      FirstWritten(lines[0], later);
      assert Stream(lines) + tail == WithCr(lines[0]) + [10] + later;
      assert forall k :: 0 <= k < |lines| - 1 ==> lines[1..][k] == lines[k + 1];
    }
  }

  /** A reader over a source that yields written lines returns what was written, whatever its reads, its
      interrupts and its end, as long as no line is over the ceiling. */
  method ReadWritten(script: seq<Event>, cap: nat, max: nat, ghost written: seq<WrittenLine>, ghost tail: seq<Byte>)
    returns (lines: seq<seq<Byte>>)
    requires Content(script) == Stream(written) + tail
    requires 10 !in tail && forall k :: 0 <= k < |written| ==> Writable(written[k])
    requires |tail| <= max && 1 <= max && forall k :: 0 <= k < |written| ==> |WithCr(written[k])| <= max
    ensures |lines| == |written| + if tail == [] then 0 else 1
    ensures forall k :: 0 <= k < |written| ==> lines[k] == written[k].0
    ensures tail != [] ==> lines[|written|] == tail
  {
    hide Content, Ending, Largest, Lines, RunsBounded, Stream, Writable, WithCr;
    WrittenLinesBack(written, tail);
    WrittenBoundedIff(max, written, tail);
    var source := new Source(script);
    var reader := new StreamReader.WithCapacity(source, cap);
    reader.WithMaxLineLen(max);
    ghost var gaveUp;
    lines, gaveUp := ReadLines(reader);
  }
}
