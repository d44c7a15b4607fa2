/** The shared state of `server.rs` under every interleaving of its threads: the connection cap,
    the bounded ring and the delivery counters, one atomic operation per step. */
module Server {
  import opened Wrappers
  import opened Bytes
  import opened Units
  import opened Connection
  import F = Framing

  const WORD: nat := 0x1_0000_0000_0000_0000
  const UDP: nat := 0

  function Wrap(n: int): nat {
    n % WORD
  }

  datatype Outcome = Sent | Full | Disconnected

  /** Where a receiver thread stands inside `deliver`. */
  datatype Pc = Ready | MustCount(outcome: Outcome) | Exited

  /** The decoder of a connection, and whether the receive loop is over; `received` is history. */
  datatype Conn = Conn(framing: F.TcpFraming, buf: seq<Byte>, closed: bool, received: seq<seq<Byte>>)

  /** A thread with every message it has decoded so far, `handed` of which it has offered to the ring. The
      datagram thread decodes without a connection. */
  datatype Sender = Sender(decoded: seq<Message>, handed: nat, pc: Pc, conn: Conn)

  /** Where the accept loop stands; `running` remembers the live connections at the `fetch_add`. */
  datatype Accept = Idle | Bumped(cur: nat, running: nat) | MustCountReject

  /** A `try_send`; `queued` and `listening` remember the ring it met. */
  datatype Call = Call(thread: nat, message: Message, outcome: Outcome, queued: nat, listening: bool)

  datatype Verdict = Verdict(running: nat, rejected: bool)

  datatype Config = Config(maxConnections: nat, ringCapacity: nat, framing: F.TcpFraming, maxFrameLen: nat)

  type Threads = map<nat, Sender>

  /** The connection cap; `verdicts` is history. */
  datatype Slots = Slots(live: nat, accept: Accept, rejected: nat, verdicts: seq<Verdict>)

  /** The bounded channel; `calls`, `consumed` and `discarded` are history. */
  datatype Ring = Ring(queue: seq<Call>, receiver: bool, calls: seq<Call>, consumed: seq<Call>, discarded: seq<Call>)

  datatype Stats = Stats(delivered: nat, droppedFull: nat, droppedDisconnected: nat)

  datatype State = State(slots: Slots, threads: Threads, nextId: nat, ring: Ring, stats: Stats)

  datatype Action =
    | AcceptConnection               // live.fetch_add
    | Decide                         // live.fetch_sub, or spawn the connection thread
    | CountReject
    | Datagram(message: Message)
    | Push(thread: nat, chunk: seq<Byte>)   // one read, and decoding it
    | Close(thread: nat)                    // end of file, error or stop, and the flush
    | TrySend(thread: nat)
    | Count(thread: nat)
    | Finish(thread: nat)            // live.fetch_sub when a connection thread returns
    | Receive
    | DropReceiver

  /** A thread that has just been spawned. */
  function Spawned(c: Config): Sender {
    Sender([], 0, Ready, Conn(c.framing, [], false, []))
  }

  function Init(c: Config): State {
    State(Slots(0, Idle, 0, []), map[UDP := Spawned(c)], 1, Ring([], true, [], [], []), Stats(0, 0, 0))
  }

  function MaxFrame(c: Config): nat {
    if c.maxFrameLen == 0 then 1 else c.maxFrameLen
  }

  /** A read of a connection: its frames are decoded, and a frame over the ceiling ends the receive loop. */
  function Pushed(c: Config, th: Sender, chunk: seq<Byte>): (after: Sender)
    ensures after.pc == th.pc && after.handed == th.handed && th.decoded <= after.decoded
  {
    var d := F.Drain(th.conn.framing, MaxFrame(c), th.conn.buf + chunk);
    var failed := d.error.Some?;
    Sender(th.decoded + Messages(TagOf(c.framing), d.frames), th.handed, th.pc,
           Conn(d.framing, if failed then [] else d.rest, failed, th.conn.received + [chunk]))
  }

  /** The receive loop ends by itself: the bytes held become one last message, if there are any. */
  function Closed(c: Config, th: Sender): (after: Sender)
    ensures after.pc == th.pc && after.handed == th.handed && th.decoded <= after.decoded
  {
    var last := if th.conn.buf == [] then [] else [th.conn.buf];
    th.(decoded := th.decoded + Messages(TagOf(c.framing), last), conn := th.conn.(buf := [], closed := true))
  }

  function Capacity(c: Config): nat {
    if c.ringCapacity == 0 then 1 else c.ringCapacity
  }

  /** `SyncSender::try_send`. */
  function Try(c: Config, r: Ring): Outcome {
    if !r.receiver then Disconnected else if |r.queue| >= Capacity(c) then Full else Sent
  }

  predicate AtWork(s: State, t: nat) {
    t in s.threads && s.threads[t].pc.Ready?
  }

  /** A thread reads on only when all it has decoded is delivered. */
  predicate AllHanded(th: Sender) {
    th.handed == |th.decoded|
  }

  predicate Enabled(s: State, a: Action) {
    match a
    case AcceptConnection => s.slots.accept.Idle?
    case Decide => s.slots.accept.Bumped?
    case CountReject => s.slots.accept.MustCountReject?
    case Datagram(_) => AtWork(s, UDP) && AllHanded(s.threads[UDP])
    case Push(t, _) => AtWork(s, t) && t != UDP && !s.threads[t].conn.closed && AllHanded(s.threads[t])
    case Close(t) => AtWork(s, t) && t != UDP && !s.threads[t].conn.closed && AllHanded(s.threads[t])
    case TrySend(t) => AtWork(s, t) && s.threads[t].handed < |s.threads[t].decoded|
    case Count(t) => t in s.threads && s.threads[t].pc.MustCount?
    case Finish(t) => AtWork(s, t) && t != UDP && s.threads[t].conn.closed && AllHanded(s.threads[t])
    case Receive => s.ring.queue != []
    case DropReceiver => s.ring.receiver
  }

  predicate Refused(c: Config, s: State)
    requires s.slots.accept.Bumped?
  {
    s.slots.accept.cur >= c.maxConnections
  }

  function NextSlots(c: Config, s: State, a: Action): Slots
    requires Enabled(s, a)
  {
    var slots := s.slots;
    match a
    case AcceptConnection => slots.(live := Wrap(slots.live + 1), accept := Bumped(slots.live, |Running(s.threads)|))
    case Decide =>
      var refused := Refused(c, s);
      Slots(if refused then Wrap(slots.live - 1) else slots.live, if refused then MustCountReject else Idle,
            slots.rejected, slots.verdicts + [Verdict(slots.accept.running, refused)])
    case CountReject => slots.(rejected := Wrap(slots.rejected + 1), accept := Idle)
    case Finish(_) => slots.(live := Wrap(slots.live - 1))
    case _ => slots
  }

  function NextThreads(c: Config, s: State, a: Action): Threads
    requires Enabled(s, a)
  {
    var threads := s.threads;
    match a
    case Decide => if Refused(c, s) then threads else threads[s.nextId := Spawned(c)]
    case Datagram(m) => threads[UDP := threads[UDP].(decoded := threads[UDP].decoded + [m])]
    case Push(t, chunk) => threads[t := Pushed(c, threads[t], chunk)]
    case Close(t) => threads[t := Closed(c, threads[t])]
    case TrySend(t) => threads[t := threads[t].(handed := threads[t].handed + 1, pc := MustCount(Try(c, s.ring)))]
    case Count(t) => threads[t := threads[t].(pc := Ready)]
    case Finish(t) => threads[t := threads[t].(pc := Exited)]
    case _ => threads
  }

  function NextRing(c: Config, s: State, a: Action): Ring
    requires Enabled(s, a)
  {
    var ring := s.ring;
    match a
    case TrySend(t) =>
      var message := s.threads[t].decoded[s.threads[t].handed];
      var call := Call(t, message, Try(c, ring), |ring.queue|, ring.receiver);
      ring.(calls := ring.calls + [call], queue := if call.outcome.Sent? then ring.queue + [call] else ring.queue)
    case Receive => ring.(consumed := ring.consumed + [ring.queue[0]], queue := ring.queue[1..])
    case DropReceiver => ring.(receiver := false, discarded := ring.queue, queue := [])
    case _ => ring
  }

  function Counter(stats: Stats, o: Outcome): nat {
    match o
    case Sent => stats.delivered
    case Full => stats.droppedFull
    case Disconnected => stats.droppedDisconnected
  }

  function NextStats(s: State, a: Action): Stats
    requires Enabled(s, a)
  {
    var stats := s.stats;
    if !a.Count? then stats
    else match s.threads[a.thread].pc.outcome
      case Sent => stats.(delivered := Wrap(stats.delivered + 1))
      case Full => stats.(droppedFull := Wrap(stats.droppedFull + 1))
      case Disconnected => stats.(droppedDisconnected := Wrap(stats.droppedDisconnected + 1))
  }

  function Step(c: Config, s: State, a: Action): State
    requires Enabled(s, a)
  {
    State(NextSlots(c, s, a), NextThreads(c, s, a), if a.Decide? && !Refused(c, s) then s.nextId + 1 else s.nextId,
          NextRing(c, s, a), NextStats(s, a))
  }

  /** Any interleaving: a schedule of actions, the disabled ones being skipped. */
  function Run(c: Config, s: State, schedule: seq<Action>): State
    decreases |schedule|
  {
    if schedule == [] then s
    else Run(c, if Enabled(s, schedule[0]) then Step(c, s, schedule[0]) else s, schedule[1..])
  }

  // ---- What the state is about ----

  /** Connection threads that have not given their slot back. */
  function Running(threads: Threads): set<nat> {
    set t | t in threads && t != UDP && !threads[t].pc.Exited?
  }

  function Pending(threads: Threads, o: Outcome): set<nat> {
    set t | t in threads && threads[t].pc == MustCount(o)
  }

  function InFlight(slots: Slots): nat {
    if slots.accept.Bumped? then 1 else 0
  }

  function With(calls: seq<Call>, o: Outcome): seq<Call> {
    if calls == [] then []
    else With(calls[..|calls| - 1], o) + if calls[|calls| - 1].outcome == o then [calls[|calls| - 1]] else []
  }

  /** The messages of thread `t` among `calls`, in order. */
  function Of(calls: seq<Call>, t: nat): seq<Message> {
    if calls == [] then []
    else Of(calls[..|calls| - 1], t) + if calls[|calls| - 1].thread == t then [calls[|calls| - 1].message] else []
  }

  function Rejections(vs: seq<Verdict>): nat {
    if vs == [] then 0 else Rejections(vs[..|vs| - 1]) + if vs[|vs| - 1].rejected then 1 else 0
  }

  // ---- Invariants ----

  ghost predicate ThreadsInv(s: State) {
    && UDP in s.threads && !s.threads[UDP].pc.Exited?
    && forall t :: t in s.threads ==> t < s.nextId
  }

  ghost predicate CapInv(c: Config, s: State) {
    var running := |Running(s.threads)|;
    && s.slots.live == Wrap(running + InFlight(s.slots))
    && running <= c.maxConnections
    && (s.slots.accept.Bumped? ==>
          s.slots.accept.cur == s.slots.accept.running && running <= s.slots.accept.running <= c.maxConnections)
    && (forall v :: v in s.slots.verdicts ==>
          v.running <= c.maxConnections && (v.rejected <==> v.running == c.maxConnections))
    && s.slots.rejected == Wrap(Rejections(s.slots.verdicts) - if s.slots.accept.MustCountReject? then 1 else 0)
  }

  ghost predicate RingInv(c: Config, r: Ring) {
    && |r.queue| <= Capacity(c)
    && With(r.calls, Sent) == r.consumed + r.discarded + r.queue
    && (if r.receiver then r.discarded == [] else r.queue == [])
  }

  ghost predicate CountInv(s: State, o: Outcome) {
    Counter(s.stats, o) == Wrap(|With(s.ring.calls, o)| - |Pending(s.threads, o)|)
  }

  /** A thread has offered the first `handed` of its messages, in order, once each. */
  ghost predicate OrderInv(s: State, t: nat) {
    if t in s.threads then
      var th := s.threads[t];
      && th.handed <= |th.decoded|
      && Of(s.ring.calls, t) == th.decoded[..th.handed]
      && (th.pc.Exited? ==> th.handed == |th.decoded| && th.conn.closed)
    else
      Of(s.ring.calls, t) == []
  }

  ghost predicate Inv(c: Config, s: State) {
    && ThreadsInv(s)
    && CapInv(c, s)
    && RingInv(c, s.ring)
    && (forall o :: CountInv(s, o))
    && (forall t :: OrderInv(s, t))
  }

  lemma InitInv(c: Config)
    ensures Inv(c, Init(c))
  {
    assert Running(Init(c).threads) == {};
    forall o ensures Pending(Init(c).threads, o) == {} {}
  }

  lemma WrapAdd(n: int, k: int)
    ensures Wrap(Wrap(n) + k) == Wrap(n + k)
  {}

  lemma StepKeepsThreads(c: Config, s: State, a: Action)
    requires ThreadsInv(s) && Enabled(s, a)
    ensures ThreadsInv(Step(c, s, a))
  {
    hide NextSlots, NextRing, NextStats;
  }

  lemma RunningAfter(c: Config, s: State, a: Action)
    requires ThreadsInv(s) && Enabled(s, a)
    ensures Running(NextThreads(c, s, a)) ==
            if a.Decide? && !Refused(c, s) then Running(s.threads) + {s.nextId}
            else if a.Finish? then Running(s.threads) - {a.thread} else Running(s.threads)
  {}

  lemma PendingAfter(c: Config, s: State, a: Action, o: Outcome)
    requires ThreadsInv(s) && Enabled(s, a)
    ensures Pending(NextThreads(c, s, a), o) ==
            if a.TrySend? && Try(c, s.ring) == o then Pending(s.threads, o) + {a.thread}
            else if a.Count? then Pending(s.threads, o) - {a.thread} else Pending(s.threads, o)
  {}

  lemma BumpKeepsCap(c: Config, s: State)
    requires c.maxConnections < WORD && CapInv(c, s) && s.slots.accept.Idle?
    ensures CapInv(c, Step(c, s, AcceptConnection))
  {
    var running := |Running(s.threads)|;
    WrapAdd(running, 1);
    assert s.slots.live == running;
    hide Wrap, Running, NextRing, NextStats;
  }

  lemma DecideKeepsCap(c: Config, s: State)
    requires ThreadsInv(s) && CapInv(c, s) && s.slots.accept.Bumped?
    ensures CapInv(c, Step(c, s, Decide))
  {
    hide Wrap, Running, NextThreads, NextRing, NextStats;
    RunningAfter(c, s, Decide);
    WrapAdd(|Running(s.threads)| + 1, -1);
    NotRunning(s);
    var v := Verdict(s.slots.accept.running, Refused(c, s));
    RejectionsPush(s.slots.verdicts, v);
    assert forall u :: u in s.slots.verdicts + [v] <==> u in s.slots.verdicts || u == v;
  }

  lemma NotRunning(s: State)
    requires ThreadsInv(s)
    ensures s.nextId !in Running(s.threads)
  {}

  lemma RejectionsPush(vs: seq<Verdict>, v: Verdict)
    ensures Rejections(vs + [v]) == Rejections(vs) + if v.rejected then 1 else 0
  {
    assert (vs + [v])[..|vs|] == vs;
  }

  lemma RejectKeepsCap(c: Config, s: State)
    requires CapInv(c, s) && s.slots.accept.MustCountReject?
    ensures CapInv(c, Step(c, s, CountReject))
  {
    WrapAdd(Rejections(s.slots.verdicts) - 1, 1);
    hide Wrap, Running, NextRing, NextStats;
  }

  lemma FinishKeepsCap(c: Config, s: State, t: nat)
    requires ThreadsInv(s) && CapInv(c, s) && Enabled(s, Finish(t))
    ensures CapInv(c, Step(c, s, Finish(t)))
  {
    RunningAfter(c, s, Finish(t));
    WrapAdd(|Running(s.threads)| + InFlight(s.slots), -1);
    assert t in Running(s.threads);
    hide Wrap, Running, NextThreads, NextRing, NextStats;
  }

  lemma StepKeepsCap(c: Config, s: State, a: Action)
    requires c.maxConnections < WORD && ThreadsInv(s) && CapInv(c, s) && Enabled(s, a)
    ensures CapInv(c, Step(c, s, a))
  {
    hide CapInv, Wrap, NextSlots, NextThreads, NextRing, NextStats;
    match a
    case AcceptConnection => BumpKeepsCap(c, s);
    case Decide => DecideKeepsCap(c, s);
    case CountReject => RejectKeepsCap(c, s);
    case Finish(t) => FinishKeepsCap(c, s, t);
    case _ => IdleKeepsCap(c, s, a);
  }

  /** The other steps leave the slots alone. */
  lemma IdleKeepsCap(c: Config, s: State, a: Action)
    requires ThreadsInv(s) && CapInv(c, s) && Enabled(s, a)
    requires !a.AcceptConnection? && !a.Decide? && !a.CountReject? && !a.Finish?
    ensures CapInv(c, Step(c, s, a))
  {
    hide Wrap, Running, NextThreads, NextRing, NextStats;
    RunningAfter(c, s, a);
    assert NextSlots(c, s, a) == s.slots;
  }

  lemma StepKeepsRing(c: Config, s: State, a: Action)
    requires RingInv(c, s.ring) && Enabled(s, a)
    ensures RingInv(c, NextRing(c, s, a))
  {
    var r, r' := s.ring, NextRing(c, s, a);
    if a.TrySend? {
      assert r'.calls[..|r.calls|] == r.calls;
      assert With(r'.calls, Sent) == r.consumed + r.discarded + r'.queue;
    } else if a.Receive? {
      assert r.queue == [r.queue[0]] + r.queue[1..];
    }
  }

  lemma WithAfter(c: Config, s: State, a: Action, o: Outcome)
    requires Enabled(s, a)
    ensures |With(NextRing(c, s, a).calls, o)| ==
            |With(s.ring.calls, o)| + if a.TrySend? && Try(c, s.ring) == o then 1 else 0
  {
    assert a.TrySend? ==> NextRing(c, s, a).calls[..|s.ring.calls|] == s.ring.calls;
  }

  lemma PendingCountAfter(c: Config, s: State, a: Action, o: Outcome)
    requires ThreadsInv(s) && Enabled(s, a)
    ensures |Pending(NextThreads(c, s, a), o)| == |Pending(s.threads, o)|
            + (if a.TrySend? && Try(c, s.ring) == o then 1 else 0)
            - (if a.Count? && s.threads[a.thread].pc.outcome == o then 1 else 0)
  {
    PendingAfter(c, s, a, o);
    assert a.TrySend? ==> a.thread !in Pending(s.threads, o);
    assert a.Count? ==> (a.thread in Pending(s.threads, o) <==> s.threads[a.thread].pc.outcome == o);
    hide Pending, NextThreads;
  }

  lemma StepKeepsCount(c: Config, s: State, a: Action, o: Outcome)
    requires ThreadsInv(s) && CountInv(s, o) && Enabled(s, a)
    ensures CountInv(Step(c, s, a), o)
  {
    hide Pending, With, Wrap, Try, NextThreads, NextSlots, NextRing;
    PendingCountAfter(c, s, a, o);
    WithAfter(c, s, a, o);
    WrapAdd(|With(s.ring.calls, o)| - |Pending(s.threads, o)|, 1);
  }

  lemma Fresh(c: Config)
    ensures Spawned(c).handed == 0 && Spawned(c).decoded == [] && Spawned(c).pc.Ready?
  {}

  lemma StepKeepsOrder(c: Config, s: State, a: Action, t: nat)
    requires ThreadsInv(s) && OrderInv(s, t) && Enabled(s, a)
    ensures OrderInv(Step(c, s, a), t)
  {
    hide NextSlots, NextStats, Pushed, Closed, Spawned, Try;
    assert Spawned(c).handed == 0 && Spawned(c).decoded == [] && Spawned(c).pc.Ready? by { Fresh(c); }
    assert a.TrySend? ==> NextRing(c, s, a).calls[..|s.ring.calls|] == s.ring.calls;
  }

  lemma StepKeepsInv(c: Config, s: State, a: Action)
    requires c.maxConnections < WORD && Inv(c, s) && Enabled(s, a)
    ensures Inv(c, Step(c, s, a))
  {
    StepKeepsThreads(c, s, a);
    StepKeepsCap(c, s, a);
    StepKeepsRing(c, s, a);
    hide NextSlots, NextThreads, NextRing, NextStats, CapInv, CountInv, OrderInv;
    forall o ensures CountInv(Step(c, s, a), o) {
      StepKeepsCount(c, s, a, o);
    }
    forall t ensures OrderInv(Step(c, s, a), t) {
      StepKeepsOrder(c, s, a, t);
    }
  }

  lemma {:induction false} RunKeepsInv(c: Config, s: State, schedule: seq<Action>)
    requires c.maxConnections < WORD && Inv(c, s)
    ensures Inv(c, Run(c, s, schedule))
    decreases |schedule|
  {
    hide Step, Enabled, Inv;
    if schedule != [] {
      if Enabled(s, schedule[0]) {
        StepKeepsInv(c, s, schedule[0]);
        RunKeepsInv(c, Step(c, s, schedule[0]), schedule[1..]);
      } else {
        RunKeepsInv(c, s, schedule[1..]);
      }
    }
  }

  // ---- What holds of the server after any schedule ----

  function Reached(c: Config, schedule: seq<Action>): State {
    Run(c, Init(c), schedule)
  }

  lemma ReachedInv(c: Config, schedule: seq<Action>)
    requires c.maxConnections < WORD
    ensures Inv(c, Reached(c, schedule))
  {
    InitInv(c);
    RunKeepsInv(c, Init(c), schedule);
  }

  /** The connection cap: never more running connections than allowed, the live counter exact up to
      the one accept in flight, and a connection refused exactly when the cap was reached at its
      `fetch_add`. */
  lemma ConnectionCap(c: Config, schedule: seq<Action>)
    requires c.maxConnections < WORD
    ensures var s := Reached(c, schedule);
            && |Running(s.threads)| <= c.maxConnections
            && s.slots.live == Wrap(|Running(s.threads)| + InFlight(s.slots))
            && (c.maxConnections < WORD - 1 ==> s.slots.live == |Running(s.threads)| + InFlight(s.slots))
            && (s.slots.accept.Bumped? ==> (Refused(c, s) <==> s.slots.accept.running == c.maxConnections))
            && (forall v :: v in s.slots.verdicts ==> (v.rejected <==> v.running == c.maxConnections))
            && (s.slots.accept.Idle? ==> s.slots.rejected == Wrap(Rejections(s.slots.verdicts)))
  {
    ReachedInv(c, schedule);
    hide Running, Reached;
  }

  /** `a` gives a slot back. */
  predicate GivesBack(c: Config, s: State, a: Action) {
    Enabled(s, a) && (a.Finish? || (a.Decide? && Refused(c, s)))
  }

  /** No `fetch_sub` ever takes the live counter below zero. */
  lemma NoUnderflow(c: Config, schedule: seq<Action>, a: Action)
    requires c.maxConnections < WORD - 1
    requires GivesBack(c, Reached(c, schedule), a)
    ensures var s := Reached(c, schedule);
            s.slots.live > 0 && NextSlots(c, s, a).live == s.slots.live - 1
  {
    ConnectionCap(c, schedule);
    var s := Reached(c, schedule);
    assert a.Finish? ==> a.thread in Running(s.threads);
    hide Reached, Running;
  }

  lemma {:induction false} RunThen(c: Config, s: State, schedule: seq<Action>, a: Action)
    ensures var m := Run(c, s, schedule);
            Run(c, s, schedule + [a]) == if Enabled(m, a) then Step(c, m, a) else m
    decreases |schedule|
  {
    hide Step, Enabled;
    if schedule == [] {
      assert [] + [a] == [a] && [a][1..] == [];
    } else {
      assert (schedule + [a])[1..] == schedule[1..] + [a];
      RunThen(c, if Enabled(s, schedule[0]) then Step(c, s, schedule[0]) else s, schedule[1..], a);
    }
  }

  /** A schedule after which `n` connections run and the accept loop is idle. */
  lemma {:induction false} Crowd(c: Config, n: nat) returns (schedule: seq<Action>)
    requires n <= c.maxConnections < WORD
    ensures var s := Reached(c, schedule);
            |Running(s.threads)| == n && s.slots.accept == Idle && s.slots.live == n
    decreases n
  {
    if n == 0 {
      schedule := [];
      assert Running(Init(c).threads) == {};
    } else {
      var before := Crowd(c, n - 1);
      var s := Reached(c, before);
      ReachedInv(c, before);
      RunThen(c, Init(c), before, AcceptConnection);
      RunThen(c, Init(c), before + [AcceptConnection], Decide);
      schedule := before + [AcceptConnection] + [Decide];
      OneMore(c, s);
      hide Run, Running, Step;
    }
  }

  /** Below the cap an accept ends with one more connection. */
  lemma OneMore(c: Config, s: State)
    requires ThreadsInv(s) && s.slots.accept == Idle && s.slots.live == |Running(s.threads)| < c.maxConnections < WORD
    ensures var bumped := Step(c, s, AcceptConnection);
            var after := Step(c, bumped, Decide);
            && Enabled(bumped, Decide) && after.slots.accept == Idle
            && |Running(after.threads)| == |Running(s.threads)| + 1 && after.slots.live == s.slots.live + 1
  {
    var bumped := Step(c, s, AcceptConnection);
    RunningAfter(c, s, AcceptConnection);
    RunningAfter(c, bumped, Decide);
    NotRunning(s);
    hide Running, NextThreads, NextRing, NextStats;
    assert bumped.threads == s.threads by { SameThreads(c, s); }
  }

  lemma SameThreads(c: Config, s: State)
    requires Enabled(s, AcceptConnection)
    ensures NextThreads(c, s, AcceptConnection) == s.threads
  {}

  /** That no `fetch_sub` takes the counter below zero holds exactly for caps under the largest word: at
      that cap, with as many connections running, the `fetch_add` of one more wraps. */
  lemma NoUnderflowIff(c: Config)
    requires c.maxConnections < WORD
    ensures (forall schedule, a :: GivesBack(c, Reached(c, schedule), a) ==> Reached(c, schedule).slots.live > 0)
            <==> c.maxConnections < WORD - 1
  {
    if c.maxConnections < WORD - 1 {
      forall schedule, a | GivesBack(c, Reached(c, schedule), a) ensures Reached(c, schedule).slots.live > 0 {
        NoUnderflow(c, schedule, a);
      }
    } else {
      var full := Crowd(c, WORD - 1);
      RunThen(c, Init(c), full, AcceptConnection);
      hide Run, Running;
      var s := Reached(c, full + [AcceptConnection]);
      assert GivesBack(c, s, Decide) && s.slots.live == 0;
    }
  }

  lemma {:induction false} WithCounts(calls: seq<Call>)
    ensures |With(calls, Sent)| + |With(calls, Full)| + |With(calls, Disconnected)| == |calls|
  {
    if calls != [] {
      WithCounts(calls[..|calls| - 1]);
    }
  }

  /** Ring conservation: the ring is bounded; what entered it is, in order, what was consumed, what
      was discarded when the receiver went away, and what is queued; and when no thread is between
      its send and its counter, the three counters add up to the `deliver` calls made. */
  lemma RingConservation(c: Config, schedule: seq<Action>)
    requires c.maxConnections < WORD
    ensures var s := Reached(c, schedule);
            && |s.ring.queue| <= (if c.ringCapacity == 0 then 1 else c.ringCapacity)
            && With(s.ring.calls, Sent) == s.ring.consumed + s.ring.discarded + s.ring.queue
            && ((forall t :: t in s.threads ==> !s.threads[t].pc.MustCount?) ==>
                  && s.stats == Stats(Wrap(|With(s.ring.calls, Sent)|), Wrap(|With(s.ring.calls, Full)|),
                                      Wrap(|With(s.ring.calls, Disconnected)|))
                  && Wrap(s.stats.delivered + s.stats.droppedFull + s.stats.droppedDisconnected) ==
                      Wrap(|s.ring.calls|))
  {
    ReachedInv(c, schedule);
    var s := Reached(c, schedule);
    WithCounts(s.ring.calls);
    hide Reached, With, CapInv, OrderInv;
    assert CountInv(s, Sent) && CountInv(s, Full) && CountInv(s, Disconnected);
    if forall t :: t in s.threads ==> !s.threads[t].pc.MustCount? {
      forall o ensures Pending(s.threads, o) == {} {}
      WrapSum(|With(s.ring.calls, Sent)|, |With(s.ring.calls, Full)|, |With(s.ring.calls, Disconnected)|);
    }
  }

  lemma WrapSum(a: nat, b: nat, c: nat)
    ensures Wrap(Wrap(a) + Wrap(b) + Wrap(c)) == Wrap(a + b + c)
  {
    hide Wrap;
    WrapAdd(a, Wrap(b) + Wrap(c));
    WrapAdd(b, a + Wrap(c));
    WrapAdd(c, a + b);
  }

  /** `a` is `b` with some elements left out. */
  predicate Subsequence<T(==)>(a: seq<T>, b: seq<T>) {
    if a == [] then true
    else if b == [] then false
    else || Subsequence(a, b[..|b| - 1])
         || (a[|a| - 1] == b[|b| - 1] && Subsequence(a[..|a| - 1], b[..|b| - 1]))
  }

  /** Its elements are found in `b` one after the other. */
  lemma {:induction false} SubsequenceAt<T>(a: seq<T>, b: seq<T>) returns (at: seq<nat>)
    requires Subsequence(a, b)
    ensures |at| == |a| && forall k :: 0 <= k < |a| ==> at[k] < |b| && b[at[k]] == a[k]
    ensures forall j, k :: 0 <= j < k < |a| ==> at[j] < at[k]
  {
    if a == [] {
      at := [];
    } else {
      var n := |b| - 1;
      if Subsequence(a, b[..n]) {
        at := SubsequenceAt(a, b[..n]);
      } else {
        at := SubsequenceAt(a[..|a| - 1], b[..n]);
        at := at + [n];
      }
    }
  }

  lemma SubsequenceSnoc<T>(a: seq<T>, b: seq<T>, x: T)
    requires Subsequence(a, b)
    ensures Subsequence(a, b + [x]) && Subsequence(a + [x], b + [x])
  {
    assert (b + [x])[..|b|] == b && (a + [x])[..|a|] == a;
  }

  lemma OfSnoc(calls: seq<Call>, call: Call, t: nat)
    ensures Of(calls + [call], t) == Of(calls, t) + if call.thread == t then [call.message] else []
  {
    assert (calls + [call])[..|calls|] == calls;
  }

  lemma {:induction false} EnteredInOrder(calls: seq<Call>, t: nat)
    ensures Subsequence(Of(With(calls, Sent), t), Of(calls, t))
  {
    if calls != [] {
      var before, call := calls[..|calls| - 1], calls[|calls| - 1];
      var entered, offered := Of(With(before, Sent), t), Of(before, t);
      EnteredInOrder(before, t);
      SubsequenceSnoc(entered, offered, call.message);
      OfSnoc(With(before, Sent), call, t);
      assert With(calls, Sent) == if call.outcome.Sent? then With(before, Sent) + [call] else With(before, Sent);
      assert Of(calls, t) == if call.thread == t then offered + [call.message] else offered;
      hide Of, With, Subsequence;
      assert entered + [] == entered;
    }
  }

  /** Each thread offers its decoded messages once each and in order, those that enter the ring are a
      subsequence, and a connection that has finished has offered them all. */
  lemma DeliveredInOrder(c: Config, schedule: seq<Action>, t: nat)
    requires c.maxConnections < WORD && t in Reached(c, schedule).threads
    ensures var s := Reached(c, schedule);
            var th := s.threads[t];
            && th.handed <= |th.decoded|
            && Of(s.ring.calls, t) == th.decoded[..th.handed]
            && Subsequence(Of(With(s.ring.calls, Sent), t), th.decoded[..th.handed])
            && (th.pc.Exited? ==> Of(s.ring.calls, t) == th.decoded)
  {
    ReachedInv(c, schedule);
    var s := Reached(c, schedule);
    hide Reached;
    assert OrderInv(s, t);
    EnteredInOrder(s.ring.calls, t);
  }

  lemma {:induction false} SubsequenceOfLonger(a: seq<Message>, b: seq<Message>, whole: seq<Message>)
    requires Subsequence(a, b) && b <= whole
    ensures Subsequence(a, whole)
    decreases |whole|
  {
    if |b| == |whole| {
      assert b == whole;
    } else {
      var n := |whole| - 1;
      SubsequenceOfLonger(a, b, whole[..n]);
      SubsequenceSnoc(a, whole[..n], whole[n]);
      assert whole[..n] + [whole[n]] == whole;
    }
  }

  // ---- When a message is dropped ----

  /** The outcome of a `try_send`, given the ring it met. */
  predicate Decided(c: Config, call: Call) {
    && (call.outcome == Disconnected <==> !call.listening)
    && (call.outcome == Full <==> call.listening && call.queued == if c.ringCapacity == 0 then 1 else c.ringCapacity)
  }

  lemma StepKeepsDecided(c: Config, s: State, a: Action)
    requires Enabled(s, a) && |s.ring.queue| <= Capacity(c)
    requires forall call :: call in s.ring.calls ==> Decided(c, call)
    ensures forall call :: call in NextRing(c, s, a).calls ==> Decided(c, call)
  {}

  lemma {:induction false} RunKeepsDecided(c: Config, s: State, schedule: seq<Action>)
    requires c.maxConnections < WORD && Inv(c, s) && forall call :: call in s.ring.calls ==> Decided(c, call)
    ensures forall call :: call in Run(c, s, schedule).ring.calls ==> Decided(c, call)
    decreases |schedule|
  {
    hide NextSlots, NextThreads, NextRing, NextStats, Enabled, Decided, CapInv, CountInv, OrderInv;
    if schedule != [] {
      if Enabled(s, schedule[0]) {
        StepKeepsInv(c, s, schedule[0]);
        StepKeepsDecided(c, s, schedule[0]);
        RunKeepsDecided(c, Step(c, s, schedule[0]), schedule[1..]);
      } else {
        RunKeepsDecided(c, s, schedule[1..]);
      }
    }
  }

  /** Under any schedule a message is dropped as disconnected exactly when the receiver was gone, and as
      full exactly when it was there and the ring held as many messages as it can, which is at least one. */
  lemma DroppedIff(c: Config, schedule: seq<Action>, k: nat)
    requires c.maxConnections < WORD && k < |Reached(c, schedule).ring.calls|
    ensures var call := Reached(c, schedule).ring.calls[k];
            && (call.outcome == Disconnected <==> !call.listening)
            && (call.outcome == Full <==>
                  call.listening && call.queued == if c.ringCapacity == 0 then 1 else c.ringCapacity)
  {
    InitInv(c);
    RunKeepsDecided(c, Init(c), schedule);
    assert Decided(c, Reached(c, schedule).ring.calls[k]) by {
      assert Reached(c, schedule).ring.calls[k] in Reached(c, schedule).ring.calls;
    }
  }

  /** A thread about to deliver, while the receiver is there and the ring has room: its next message is
      queued behind the others, and counted as delivered. */
  lemma RoomDelivers(c: Config, s: State, t: nat)
    requires t in s.threads && s.threads[t].pc == Ready && s.threads[t].handed < |s.threads[t].decoded|
    requires s.ring.receiver && |s.ring.queue| < if c.ringCapacity == 0 then 1 else c.ringCapacity
    ensures var after := Run(c, s, [TrySend(t), Count(t)]);
            && |after.ring.queue| == |s.ring.queue| + 1 && after.ring.queue[..|s.ring.queue|] == s.ring.queue
            && after.ring.queue[|s.ring.queue|].message == s.threads[t].decoded[s.threads[t].handed]
            && after.threads == s.threads[t := s.threads[t].(handed := s.threads[t].handed + 1)]
            && after.stats == s.stats.(delivered := (s.stats.delivered + 1) % 0x1_0000_0000_0000_0000)
            && after.ring.receiver && after.slots == s.slots
  {
    TwoSteps(c, s, TrySend(t), Count(t));
  }

  lemma TwoSteps(c: Config, s: State, a: Action, b: Action)
    requires Enabled(s, a) && Enabled(Step(c, s, a), b)
    ensures Run(c, s, [a, b]) == Step(c, Step(c, s, a), b)
  {
    hide Step, Enabled;
    RunThen(c, s, [a], b);
    RunThen(c, s, [], a);
    assert [] + [a] == [a] && [a] + [b] == [a, b];
  }

  /** A full ring, or one without a receiver, loses the message and counts it so. */
  lemma NoRoomDrops(c: Config, s: State, t: nat)
    requires t in s.threads && s.threads[t].pc == Ready && s.threads[t].handed < |s.threads[t].decoded|
    requires !s.ring.receiver || |s.ring.queue| >= if c.ringCapacity == 0 then 1 else c.ringCapacity
    ensures var after := Run(c, s, [TrySend(t), Count(t)]);
            && after.ring.queue == s.ring.queue
            && after.threads == s.threads[t := s.threads[t].(handed := s.threads[t].handed + 1)]
            && after.stats == if s.ring.receiver
                              then s.stats.(droppedFull := (s.stats.droppedFull + 1) % 0x1_0000_0000_0000_0000)
                              else s.stats.(droppedDisconnected := (s.stats.droppedDisconnected + 1)
                                                            % 0x1_0000_0000_0000_0000)
  {
    TwoSteps(c, s, TrySend(t), Count(t));
  }

  // ---- One connection, from its bytes to the ring ----

  /** What the chunks received so far decode to. */
  function Decoded(c: Config, conn: Conn): F.Drained {
    F.Feed(c.framing, MaxFrame(c), [], conn.received)
  }

  /** A connection thread has decoded exactly the frames of the bytes it received, and after a clean end
      what was left of them. */
  ghost predicate ConnInv(c: Config, th: Sender) {
    var f := Decoded(c, th.conn);
    if th.conn.closed then
      th.decoded == Messages(TagOf(c.framing), HandedOver(f))
    else
      && f.error.None? && th.conn.framing == f.framing && th.conn.buf == f.rest
      && th.decoded == Messages(TagOf(c.framing), f.frames)
  }

  ghost predicate ConnsInv(c: Config, s: State) {
    forall t :: t in s.threads && t != UDP ==> ConnInv(c, s.threads[t])
  }

  lemma SpawnedConn(c: Config)
    ensures ConnInv(c, Spawned(c))
  {}

  lemma PushedConn(c: Config, th: Sender, chunk: seq<Byte>)
    requires ConnInv(c, th) && !th.conn.closed
    ensures ConnInv(c, Pushed(c, th, chunk))
  {
    hide F.Drain, F.Feed, Messages;
    var f, d := Decoded(c, th.conn), F.Drain(th.conn.framing, MaxFrame(c), th.conn.buf + chunk);
    F.FeedSnoc(c.framing, MaxFrame(c), [], th.conn.received, chunk);
    MessagesAppend(TagOf(c.framing), f.frames, d.frames);
    assert f.frames + d.frames + [] == f.frames + d.frames;
  }

  lemma ClosedConn(c: Config, th: Sender)
    requires ConnInv(c, th) && !th.conn.closed
    ensures ConnInv(c, Closed(c, th))
  {
    hide F.Feed, Messages;
    var f := Decoded(c, th.conn);
    MessagesAppend(TagOf(c.framing), f.frames, if f.rest == [] then [] else [f.rest]);
  }

  /** A step that does not read for a thread leaves its decoder and its messages alone. */
  lemma OtherThread(c: Config, s: State, a: Action, t: nat)
    requires Enabled(s, a) && t in NextThreads(c, s, a) && t != UDP
    ensures var after := NextThreads(c, s, a)[t];
            || (t in s.threads && (a == Close(t) || (a.Push? && a.thread == t)))
            || after == Spawned(c)
            || (t in s.threads && after.conn == s.threads[t].conn && after.decoded == s.threads[t].decoded)
  {
    hide Pushed, Closed, Spawned;
  }

  lemma StepKeepsConn(c: Config, s: State, a: Action, t: nat)
    requires ConnsInv(c, s) && Enabled(s, a) && t in NextThreads(c, s, a) && t != UDP
    ensures ConnInv(c, NextThreads(c, s, a)[t])
  {
    hide Pushed, Closed, Spawned, F.Feed, Messages;
    OtherThread(c, s, a, t);
    SpawnedConn(c);
    if a == Close(t) {
      ClosedConn(c, s.threads[t]);
    } else if a.Push? && a.thread == t {
      PushedConn(c, s.threads[t], a.chunk);
    }
  }

  lemma StepKeepsConns(c: Config, s: State, a: Action)
    requires ConnsInv(c, s) && Enabled(s, a)
    ensures ConnsInv(c, Step(c, s, a))
  {
    hide NextSlots, NextThreads, NextRing, NextStats, ConnInv;
    forall t | t in NextThreads(c, s, a) && t != UDP ensures ConnInv(c, NextThreads(c, s, a)[t]) {
      StepKeepsConn(c, s, a, t);
    }
  }

  lemma {:induction false} RunKeepsConns(c: Config, s: State, schedule: seq<Action>)
    requires ConnsInv(c, s)
    ensures ConnsInv(c, Run(c, s, schedule))
    decreases |schedule|
  {
    hide Step, Enabled, ConnsInv;
    if schedule != [] {
      if Enabled(s, schedule[0]) {
        StepKeepsConns(c, s, schedule[0]);
        RunKeepsConns(c, Step(c, s, schedule[0]), schedule[1..]);
      } else {
        RunKeepsConns(c, s, schedule[1..]);
      }
    }
  }

  /** A connection thread under any schedule: what it got into the ring is a subsequence, in order, of the
      units its bytes are made of, and of the bytes left over after a clean end; and when it has finished,
      it has offered them all. */
  lemma ConnectionDelivered(c: Config, schedule: seq<Action>, t: nat)
    returns (units: seq<Unit>, held: seq<Byte>, unread: seq<Byte>)
    requires c.maxConnections < WORD && t in Reached(c, schedule).threads && t != UDP
    ensures var conn := Reached(c, schedule).threads[t].conn;
            && RawAll(units) + held + unread == Flatten(conn.received)
            && (forall u :: u in units ==>
                  Valid(if c.maxFrameLen == 0 then 1 else c.maxFrameLen, u) && Allowed(c.framing, u))
            && (Decoded(c, conn).error.None? ==> unread == [])
    ensures var calls, th := Reached(c, schedule).ring.calls, Reached(c, schedule).threads[t];
            var clean := Decoded(c, th.conn).error.None?;
            var all := Messages(TagOf(c.framing), Payloads(units) + if clean && held != [] then [held] else []);
            && Subsequence(Of(With(calls, Sent), t), all)
            && Of(calls, t) <= all
            && (th.pc.Exited? ==> Of(calls, t) == all)
  {
    hide Reached, F.Feed, Messages, RawAll, Payloads, Of, With, Subsequence;
    var s := Reached(c, schedule);
    var th := s.threads[t];
    var f := Decoded(c, th.conn);
    units, unread := FeedConservation(c.framing, MaxFrame(c), [], th.conn.received);
    held := f.rest;
    assert [] + Flatten(th.conn.received) == Flatten(th.conn.received);
    DeliveredInOrder(c, schedule, t);
    ReachedConn(c, schedule, t);
    var all := Messages(TagOf(c.framing), HandedOver(f));
    MessagesAppend(TagOf(c.framing), f.frames, HandedOver(f)[|f.frames|..]);
    assert HandedOver(f) == f.frames + HandedOver(f)[|f.frames|..];
    assert th.decoded <= all && th.decoded[..th.handed] <= all;
    SubsequenceOfLonger(Of(With(s.ring.calls, Sent), t), th.decoded[..th.handed], all);
  }

  lemma ReachedConn(c: Config, schedule: seq<Action>, t: nat)
    requires c.maxConnections < WORD && t in Reached(c, schedule).threads && t != UDP
    ensures var th := Reached(c, schedule).threads[t];
            ConnInv(c, th) && (th.pc.Exited? ==> th.conn.closed)
  {
    hide Run, ConnInv;
    ReachedInv(c, schedule);
    ExitedClosed(c, Reached(c, schedule), t);
    assert ConnsInv(c, Init(c));
    RunKeepsConns(c, Init(c), schedule);
  }

  lemma ExitedClosed(c: Config, s: State, t: nat)
    requires Inv(c, s) && t in s.threads
    ensures s.threads[t].pc.Exited? ==> s.threads[t].conn.closed
  {
    hide ThreadsInv, CapInv, RingInv, CountInv, Of;
    assert OrderInv(s, t);
  }

  // ---- A connection can be served ----

  lemma {:induction false} RunAppend(c: Config, s: State, a: seq<Action>, b: seq<Action>)
    ensures Run(c, s, a + b) == Run(c, Run(c, s, a), b)
    decreases |a|
  {
    hide Step, Enabled;
    if a == [] {
      assert a + b == b;
    } else {
      assert (a + b)[1..] == a[1..] + b;
      RunAppend(c, if Enabled(s, a[0]) then Step(c, s, a[0]) else s, a[1..], b);
    }
  }

  /** A connection thread at work, the ring empty and its receiver there. */
  predicate Quiet(s: State, t: nat) {
    t in s.threads && t != UDP && s.threads[t].pc.Ready? && s.ring.receiver && s.ring.queue == []
  }

  predicate SameDrops(s: State, after: State) {
    after.stats.droppedFull == s.stats.droppedFull && after.stats.droppedDisconnected == s.stats.droppedDisconnected
  }

  lemma OneServed(c: Config, s: State, t: nat)
    requires Quiet(s, t) && s.threads[t].handed < |s.threads[t].decoded|
    ensures var after := Run(c, s, [TrySend(t), Count(t), Receive]);
            && Quiet(after, t) && SameDrops(s, after) && after.slots == s.slots
            && after.threads == s.threads[t := s.threads[t].(handed := s.threads[t].handed + 1)]
  {
    RoomDelivers(c, s, t);
    RunThen(c, s, [TrySend(t), Count(t)], Receive);
    assert [TrySend(t), Count(t)] + [Receive] == [TrySend(t), Count(t), Receive];
    hide Run;
  }

  lemma {:induction false} RestServed(c: Config, s: State, t: nat) returns (schedule: seq<Action>)
    requires Quiet(s, t) && s.threads[t].handed <= |s.threads[t].decoded|
    ensures var after := Run(c, s, schedule);
            && Quiet(after, t) && SameDrops(s, after) && after.slots == s.slots
            && after.threads == s.threads[t := s.threads[t].(handed := |s.threads[t].decoded|)]
    decreases |s.threads[t].decoded| - s.threads[t].handed
  {
    if AllHanded(s.threads[t]) {
      schedule := [];
      assert s.threads[t].(handed := |s.threads[t].decoded|) == s.threads[t];
    } else {
      var three := [TrySend(t), Count(t), Receive];
      OneServed(c, s, t);
      hide Run;
      var later := RestServed(c, Run(c, s, three), t);
      RunAppend(c, s, three, later);
      schedule := three + later;
    }
  }

  lemma OneRead(c: Config, s: State, t: nat, a: Action)
    requires Quiet(s, t) && AllHanded(s.threads[t]) && !s.threads[t].conn.closed
    requires a == Close(t) || (a.Push? && a.thread == t)
    ensures var after := Run(c, s, [a]);
            && Quiet(after, t) && SameDrops(s, after) && after.slots == s.slots
            && after.threads[t] == if a.Push? then Pushed(c, s.threads[t], a.chunk) else Closed(c, s.threads[t])
  {
    hide Pushed, Closed;
    assert [a][1..] == [];
    assert Enabled(s, a);
    assert Run(c, s, [a]) == Run(c, Step(c, s, a), []) == Step(c, s, a);
  }

  /** One read, or the close, and the delivery of all it decodes. */
  lemma ReadServed(c: Config, s: State, t: nat, a: Action) returns (schedule: seq<Action>)
    requires Quiet(s, t) && AllHanded(s.threads[t]) && !s.threads[t].conn.closed
    requires a == Close(t) || (a.Push? && a.thread == t)
    ensures var after := Run(c, s, schedule);
            var th := if a.Push? then Pushed(c, s.threads[t], a.chunk) else Closed(c, s.threads[t]);
            && Quiet(after, t) && SameDrops(s, after) && after.slots == s.slots
            && after.threads[t] == th.(handed := |th.decoded|)
  {
    hide Pushed, Closed, Run;
    OneRead(c, s, t, a);
    var later := RestServed(c, Run(c, s, [a]), t);
    RunAppend(c, s, [a], later);
    schedule := [a] + later;
  }

  lemma {:induction false} ReadsServed(c: Config, s: State, t: nat, chunks: seq<seq<Byte>>)
    returns (schedule: seq<Action>)
    requires Quiet(s, t) && AllHanded(s.threads[t]) && !s.threads[t].conn.closed && ConnInv(c, s.threads[t])
    ensures var after := Run(c, s, schedule);
            && Quiet(after, t) && SameDrops(s, after) && after.slots == s.slots
            && ReadAll(c, s.threads[t].conn.received + chunks, after.threads[t])
    decreases |chunks|
  {
    hide ConnInv, Decoded, Pushed, Closed;
    if chunks == [] {
      schedule := [];
      assert s.threads[t].conn.received + chunks == s.threads[t].conn.received;
    } else {
      hide Run;
      schedule := ReadServed(c, s, t, Push(t, chunks[0]));
      var m := Run(c, s, schedule);
      var received := s.threads[t].conn.received;
      PushedReceives(c, s.threads[t], chunks[0]);
      PushedConn(c, s.threads[t], chunks[0]);
      HandedConn(c, Pushed(c, s.threads[t], chunks[0]));
      assert received + chunks == received + [chunks[0]] + chunks[1..];
      if !m.threads[t].conn.closed {
        var later := ReadsServed(c, m, t, chunks[1..]);
        RunAppend(c, s, schedule, later);
        schedule := schedule + later;
      }
    }
  }

  /** All the chunks have been read and all they decode to handed over, or a frame was rejected on the way. */
  predicate ReadAll(c: Config, chunks: seq<seq<Byte>>, th: Sender) {
    && AllHanded(th) && th.conn.received <= chunks
    && if th.conn.closed then Decoded(c, th.conn).error.Some? else th.conn.received == chunks
  }

  lemma PushedReceives(c: Config, th: Sender, chunk: seq<Byte>)
    requires ConnInv(c, th) && !th.conn.closed
    ensures var after := Pushed(c, th, chunk);
            && after.conn.received == th.conn.received + [chunk]
            && (after.conn.closed ==> Decoded(c, after.conn).error.Some?)
  {
    hide F.Drain, F.Feed, Messages;
    F.FeedSnoc(c.framing, MaxFrame(c), [], th.conn.received, chunk);
  }

  lemma HandedConn(c: Config, th: Sender)
    requires ConnInv(c, th)
    ensures ConnInv(c, th.(handed := |th.decoded|)) && AllHanded(th.(handed := |th.decoded|))
  {
    hide Messages;
  }

  lemma FirstConnection(c: Config)
    requires 1 <= c.maxConnections
    ensures var s := Run(c, Init(c), [AcceptConnection, Decide]);
            Quiet(s, 1) && s.threads[1] == Spawned(c) && SameDrops(Init(c), s)
  {
    RunThen(c, Init(c), [AcceptConnection], Decide);
    RunThen(c, Init(c), [], AcceptConnection);
    assert [] + [AcceptConnection] == [AcceptConnection];
    assert [AcceptConnection] + [Decide] == [AcceptConnection, Decide];
  }

  lemma LastStep(c: Config, s: State, t: nat)
    requires Quiet(s, t) && AllHanded(s.threads[t]) && s.threads[t].conn.closed
    ensures var after := Run(c, s, [Finish(t)]);
            && after.threads == s.threads[t := s.threads[t].(pc := Exited)]
            && after.ring == s.ring && after.stats == s.stats
  {
    assert [Finish(t)][1..] == [];
  }

  /** Whatever a connection sends, some schedule serves it: the bytes are read until a frame is rejected,
      every message is consumed, none is dropped, and the thread exits. */
  lemma ConnectionServed(c: Config, chunks: seq<seq<Byte>>) returns (schedule: seq<Action>)
    requires 1 <= c.maxConnections < WORD
    ensures var s := Reached(c, schedule);
            && 1 in s.threads && s.threads[1].pc.Exited? && AllHanded(s.threads[1])
            && s.threads[1].conn.received <= chunks
            && (Decoded(c, s.threads[1].conn).error.None? ==> s.threads[1].conn.received == chunks)
            && s.ring.queue == [] && s.stats.droppedFull == 0 && s.stats.droppedDisconnected == 0
  {
    hide Run, Decoded, ConnInv, Closed;
    schedule := [AcceptConnection, Decide];
    FirstConnection(c);
    var s := Run(c, Init(c), schedule);
    SpawnedQuiet(c);
    SpawnedConn(c);
    var pushes := ReadsServed(c, s, 1, chunks);
    RunAppend(c, Init(c), schedule, pushes);
    schedule := schedule + pushes;
    s := Run(c, Init(c), schedule);
    assert [] + chunks == chunks;
    if !s.threads[1].conn.closed {
      var last := ReadServed(c, s, 1, Close(1));
      ClosedReceives(c, s.threads[1]);
      SameDecoded(c, s.threads[1].conn, Closed(c, s.threads[1]).conn);
      RunAppend(c, Init(c), schedule, last);
      schedule := schedule + last;
      s := Run(c, Init(c), schedule);
    }
    LastStep(c, s, 1);
    RunAppend(c, Init(c), schedule, [Finish(1)]);
    schedule := schedule + [Finish(1)];
  }

  lemma SpawnedQuiet(c: Config)
    ensures AllHanded(Spawned(c)) && !Spawned(c).conn.closed && Spawned(c).conn.received == []
  {}

  lemma SameDecoded(c: Config, a: Conn, b: Conn)
    requires a.received == b.received
    ensures Decoded(c, a) == Decoded(c, b)
  {}

  lemma ClosedReceives(c: Config, th: Sender)
    ensures Closed(c, th).conn.received == th.conn.received && Closed(c, th).conn.closed
  {}
}
