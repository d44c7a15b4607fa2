/** Chunk independence: how the network cuts the stream does not change what is decoded. */
module Chunking {
  import opened Wrappers
  import opened Bytes
  import opened Framing

  /** The growth ceiling of line mode has been reached with no LF in sight. */
  predicate Undelimited(framing: TcpFraming, max: nat, buf: seq<Byte>) {
    && (framing == NonTransparent || (framing == Auto && Detect(buf) == Some(Lines)))
    && |buf| >= max
    && LF !in buf
  }

  predicate Overrun(max: nat, d: Drained) {
    Undelimited(d.framing, max, d.rest)
  }

  /** The ceiling is the only rejection that more bytes could have averted. */
  lemma RejectCases(framing: TcpFraming, max: nat, a: seq<Byte>, b: seq<Byte>)
    ensures Undelimited(framing, max, a) ==> StepOf(framing, max, a).Reject?
    ensures StepOf(framing, max, a).Reject? && !Undelimited(framing, max, a)
            ==> StepOf(framing, max, a + b) == StepOf(framing, max, a)
  {
    if LF in a {
      var k :| 0 <= k < |a| && a[k] == LF;
      assert IndexOf(a, LF) <= k;
    }
    DetectAppend(a, b);
    OctetStepAppend(framing == Auto, max, a, b);
  }

  lemma DrainOverrun(framing: TcpFraming, max: nat, buf: seq<Byte>)
    ensures Overrun(max, Drain(framing, max, buf)) ==> Drain(framing, max, buf).error.Some?
  {
    hide StepOf, Undelimited;
    DrainStops(framing, max, buf);
    var d := Drain(framing, max, buf);
    RejectCases(d.framing, max, d.rest, []);
  }

  lemma RejectIsFinal(framing: TcpFraming, max: nat, buf: seq<Byte>, more: seq<Byte>)
    requires Drain(framing, max, buf).error.Some? && !Overrun(max, Drain(framing, max, buf))
    ensures var d := Drain(framing, max, buf);
            Drain(framing, max, buf + more) == d.(rest := d.rest + more)
  {
    hide StepOf, Undelimited;
    var d := Drain(framing, max, buf);
    DrainStops(framing, max, buf);
    DrainAppend(framing, max, buf, more);
    RejectCases(d.framing, max, d.rest, more);
  }

  /** Whatever the chunking, the frames emitted are the first frames of the whole stream;
      all of them when no push fails, and also when a push fails for any reason but the ceiling. */
  lemma {:induction false} FeedVersusWhole(framing: TcpFraming, max: nat, buf: seq<Byte>, chunks: seq<seq<Byte>>)
    requires StepOf(framing, max, buf).Wait?
    ensures var f, w := Feed(framing, max, buf, chunks), Drain(framing, max, buf + Flatten(chunks));
            && f.frames <= w.frames
            && (f.error.None? ==> f == w)
            && (f.error.Some? && !Overrun(max, f) ==> w == f.(rest := w.rest))
    decreases |chunks|
  {
    hide StepOf, Undelimited;
    if chunks == [] {
      assert buf + Flatten(chunks) == buf;
    } else {
      var d, tail := Drain(framing, max, buf + chunks[0]), Flatten(chunks[1..]);
      assert buf + Flatten(chunks) == buf + chunks[0] + tail;
      DrainAppend(framing, max, buf + chunks[0], tail);
      DrainStops(framing, max, buf + chunks[0]);
      if d.error.None? {
        FeedVersusWhole(d.framing, max, d.rest, chunks[1..]);
      } else if !Overrun(max, d) {
        RejectIsFinal(framing, max, buf + chunks[0], tail);
      }
    }
  }

  /** Octet counting has no undelimited ceiling, so there even the errors are independent of the chunking. */
  lemma OctetChunking(max: nat, chunks: seq<seq<Byte>>)
    ensures var f, w := Feed(OctetCounting, max, [], chunks), Drain(OctetCounting, max, Flatten(chunks));
            f.frames == w.frames && f.error == w.error && f.framing == w.framing
  {
    FeedVersusWhole(OctetCounting, max, [], chunks);
    assert [] + Flatten(chunks) == Flatten(chunks);
    FeedKeepsOctet(max, [], chunks);
  }

  lemma {:induction false} FeedKeepsOctet(max: nat, buf: seq<Byte>, chunks: seq<seq<Byte>>)
    ensures Feed(OctetCounting, max, buf, chunks).framing == OctetCounting
    decreases |chunks|
  {
    if chunks != [] {
      DrainStops(OctetCounting, max, buf + chunks[0]);
      FeedKeepsOctet(max, Drain(OctetCounting, max, buf + chunks[0]).rest, chunks[1..]);
    }
  }

  /** The exact condition for a chunking to be accepted: the whole stream is, and no chunk
      boundary leaves a line of `max` bytes or more without its LF. */
  lemma {:induction false} FeedSucceedsIff(framing: TcpFraming, max: nat, buf: seq<Byte>, chunks: seq<seq<Byte>>)
    requires StepOf(framing, max, buf).Wait?
    ensures Feed(framing, max, buf, chunks).error.None? <==>
            && Drain(framing, max, buf + Flatten(chunks)).error.None?
            && forall k :: 0 <= k <= |chunks| ==> !Overrun(max, Drain(framing, max, buf + Flatten(chunks[..k])))
    decreases |chunks|
  {
    hide StepOf, Undelimited;
    assert buf + Flatten(chunks[..0]) == buf;
    DrainOverrun(framing, max, buf);
    if chunks == [] {
      assert buf + Flatten(chunks) == buf;
    } else {
      var first, later := buf + chunks[0], chunks[1..];
      var d := Drain(framing, max, first);
      assert chunks[..1] == [chunks[0]] && buf + Flatten(chunks[..1]) == first;
      assert buf + Flatten(chunks) == first + Flatten(later);
      DrainStops(framing, max, first);
      if d.error.Some? {
        if !Overrun(max, d) {
          RejectIsFinal(framing, max, first, Flatten(later));
        }
      } else {
        FeedSucceedsIff(d.framing, max, d.rest, later);
        DrainAppend(framing, max, first, Flatten(later));
        forall k | 0 <= k <= |later|
          ensures Overrun(max, Drain(framing, max, buf + Flatten(chunks[..k + 1])))
              <==> Overrun(max, Drain(d.framing, max, d.rest + Flatten(later[..k])))
        {
          assert chunks[..k + 1] == [chunks[0]] + later[..k];
          assert buf + Flatten(chunks[..k + 1]) == first + Flatten(later[..k]);
          DrainAppend(framing, max, first, Flatten(later[..k]));
        }
        forall k | 0 < k <= |chunks|
          ensures Overrun(max, Drain(framing, max, buf + Flatten(chunks[..k])))
              <==> Overrun(max, Drain(d.framing, max, d.rest + Flatten(later[..k - 1])))
        {
          assert k - 1 + 1 == k;
        }
      }
    }
  }

  /** The same for a fresh decoder. */
  lemma FreshFeedSucceedsIff(framing: TcpFraming, max: nat, chunks: seq<seq<Byte>>)
    requires max >= 1
    ensures Feed(framing, max, [], chunks).error.None? <==>
            && Drain(framing, max, Flatten(chunks)).error.None?
            && forall k :: 0 <= k <= |chunks| ==> !Overrun(max, Drain(framing, max, Flatten(chunks[..k])))
    ensures Feed(framing, max, [], chunks).error.None? ==>
            Feed(framing, max, [], chunks) == Drain(framing, max, Flatten(chunks))
  {
    EmptyWaits(framing, max);
    hide StepOf, Drain, Feed, Undelimited, Flatten;
    FeedSucceedsIff(framing, max, [], chunks);
    FeedVersusWhole(framing, max, [], chunks);
    assert [] + Flatten(chunks) == Flatten(chunks);
    forall k | 0 <= k <= |chunks|
      ensures [] + Flatten(chunks[..k]) == Flatten(chunks[..k])
    {}
  }

  // ---- Feeding one byte at a time is the hardest chunking ----

  ghost predicate EveryPrefixAccepted(framing: TcpFraming, max: nat, s: seq<Byte>) {
    forall n :: 0 <= n <= |s| ==> Drain(framing, max, s[..n]).error.None?
  }

  function Singletons(s: seq<Byte>): (chunks: seq<seq<Byte>>)
    ensures |chunks| == |s|
  {
    seq(|s|, i requires 0 <= i < |s| => [s[i]])
  }

  lemma {:induction false} SingletonsFlatten(s: seq<Byte>)
    ensures Flatten(Singletons(s)) == s
  {
    if s != [] {
      assert Singletons(s)[1..] == Singletons(s[1..]);
      SingletonsFlatten(s[1..]);
    }
  }

  lemma SingletonsPrefix(s: seq<Byte>, n: nat)
    requires n <= |s|
    ensures Flatten(Singletons(s)[..n]) == s[..n]
  {
    assert Singletons(s)[..n] == Singletons(s[..n]);
    SingletonsFlatten(s[..n]);
  }

  lemma EmptyWaits(framing: TcpFraming, max: nat)
    requires max >= 1
    ensures StepOf(framing, max, []) == Wait
  {}

  lemma ChunksPrefix(chunks: seq<seq<Byte>>, k: nat)
    requires k <= |chunks|
    ensures var s, p := Flatten(chunks), Flatten(chunks[..k]); |p| <= |s| && p == s[..|p|]
  {
    assert chunks == chunks[..k] + chunks[k..];
    FlattenAppend(chunks[..k], chunks[k..]);
  }

  lemma {:induction false} EveryChunkingAccepted(framing: TcpFraming, max: nat, s: seq<Byte>, chunks: seq<seq<Byte>>)
    requires max >= 1 && EveryPrefixAccepted(framing, max, s) && Flatten(chunks) == s
    ensures Feed(framing, max, [], chunks) == Drain(framing, max, s)
    ensures Drain(framing, max, s).error.None?
  {
    hide StepOf, Drain, Feed, Undelimited, Flatten;
    assert s[..|s|] == s;
    forall k | 0 <= k <= |chunks|
      ensures !Overrun(max, Drain(framing, max, Flatten(chunks[..k])))
    {
      var p := Flatten(chunks[..k]);
      ChunksPrefix(chunks, k);
      assert Drain(framing, max, s[..|p|]).error.None?;
      DrainOverrun(framing, max, p);
    }
    FreshFeedSucceedsIff(framing, max, chunks);
  }

  lemma OnesAcceptedPrefix(framing: TcpFraming, max: nat, s: seq<Byte>, n: nat)
    requires max >= 1 && n <= |s|
    requires Feed(framing, max, [], Singletons(s)).error.None?
    ensures Drain(framing, max, s[..n]).error.None?
  {
    hide StepOf, Drain, Feed, Undelimited, Singletons, Flatten;
    FreshFeedSucceedsIff(framing, max, Singletons(s));
    SingletonsFlatten(s);
    SingletonsPrefix(s, n);
    assert !Overrun(max, Drain(framing, max, Flatten(Singletons(s)[..n])));
    if Drain(framing, max, s[..n]).error.Some? {
      RejectIsFinal(framing, max, s[..n], s[n..]);
      assert s == s[..n] + s[n..];
    }
  }

  /** If the byte-at-a-time chunking raises no error, no chunking of the same bytes does,
      and all of them end in the same frames, framing and leftover. */
  lemma {:induction false} ByteAtATime(framing: TcpFraming, max: nat, s: seq<Byte>, chunks: seq<seq<Byte>>)
    requires max >= 1 && Flatten(chunks) == s
    requires Feed(framing, max, [], Singletons(s)).error.None?
    ensures Feed(framing, max, [], chunks) == Feed(framing, max, [], Singletons(s)) == Drain(framing, max, s)
  {
    hide StepOf, Drain, Feed, Undelimited, Singletons, Flatten;
    forall n | 0 <= n <= |s|
      ensures Drain(framing, max, s[..n]).error.None?
    {
      OnesAcceptedPrefix(framing, max, s, n);
    }
    SingletonsFlatten(s);
    EveryChunkingAccepted(framing, max, s, chunks);
    EveryChunkingAccepted(framing, max, s, Singletons(s));
  }
}
