/** The OTLP exporter: records in batches, each batch retried with a doubling, capped backoff. */
module Exporting {
  import opened Wrappers
  import opened Bytes

  const WORD: nat := 0x1_0000_0000_0000_0000
  const MAX_BACKOFF: nat := 30_000

  datatype Transport = Grpc | Http

  datatype Config = Config(
    transport: Transport, https: bool, hasHeaders: bool, requireTls: bool,
    batchSize: nat, maxRetries: nat, baseBackoff: nat)

  datatype Error = InsecureTransport | RetriesExhausted(retries: nat) | GrpcFeatureDisabled

  /** The receiving end. Whether it accepts the n-th request is up to `answer`; the requests made and
      the sleeps between them are on record. */
  class Link<R> {
    const answer: nat -> bool
    var requests: seq<seq<R>>
    var sleeps: seq<nat>

    constructor (answer: nat -> bool)
      ensures this.answer == answer && requests == [] && sleeps == []
    {
      this.answer, requests, sleeps := answer, [], [];
    }

    method Send(batch: seq<R>) returns (ok: bool)
      modifies this`requests
      ensures requests == old(requests) + [batch] && ok == answer(|old(requests)|)
    {
      ok := answer(|requests|);
      requests := requests + [batch];
    }

    method Sleep(ms: nat)
      modifies this`sleeps
      ensures sleeps == old(sleeps) + [ms]
    {
      sleeps := sleeps + [ms];
    }
  }

  // ---- One batch: the retry loop ----

  function Min(a: nat, b: nat): nat {
    if a <= b then a else b
  }

  /** The wait before retry `k + 1`; the doubling is done in 64 bits and wraps. */
  function Backoff(base: nat, k: nat): nat {
    if k == 0 then base else Min((Backoff(base, k - 1) * 2) % WORD, MAX_BACKOFF)
  }

  function Backoffs(base: nat, n: nat): seq<nat> {
    seq(n, k requires 0 <= k < n => Backoff(base, k))
  }

  function Repeat<T>(x: T, n: nat): seq<T> {
    seq(n, k requires 0 <= k < n => x)
  }

  /** The attempts for one batch, from request number `first` on: it stops at the first acceptance and
      gives up after `retries` refusals are followed by another. */
  ghost predicate Attempts(answer: nat -> bool, first: nat, retries: nat, n: nat, accepted: bool) {
    && 1 <= n <= retries + 1
    && (forall k :: first <= k < first + n - 1 ==> !answer(k))
    && accepted == answer(first + n - 1)
    && (!accepted ==> n == retries + 1)
  }

  method ExportHttp<R>(config: Config, link: Link<R>, batch: seq<R>) returns (r: Result<(), Error>, ghost n: nat)
    modifies link
    ensures Attempts(link.answer, |old(link.requests)|, config.maxRetries, n, r.Ok?)
    ensures link.requests == old(link.requests) + Repeat(batch, n)
    ensures link.sleeps == old(link.sleeps) + Backoffs(config.baseBackoff, n - 1)
    ensures r.Err? ==> r.error == RetriesExhausted(config.maxRetries)
  {
    var attempt := 0;
    var backoff := config.baseBackoff;
    while true
      invariant attempt <= config.maxRetries && backoff == Backoff(config.baseBackoff, attempt)
      invariant link.requests == old(link.requests) + Repeat(batch, attempt)
      invariant link.sleeps == old(link.sleeps) + Backoffs(config.baseBackoff, attempt)
      invariant forall k :: |old(link.requests)| <= k < |old(link.requests)| + attempt ==> !link.answer(k)
      decreases config.maxRetries - attempt
    {
      var ok := link.Send(batch);
      assert Repeat(batch, attempt + 1) == Repeat(batch, attempt) + [batch];
      if ok {
        return Ok(()), attempt + 1;
      }
      if attempt >= config.maxRetries {
        return Err(RetriesExhausted(config.maxRetries)), attempt + 1;
      }
      attempt := attempt + 1;
      link.Sleep(backoff);
      assert Backoffs(config.baseBackoff, attempt) == Backoffs(config.baseBackoff, attempt - 1) + [backoff];
      backoff := Min((backoff * 2) % WORD, MAX_BACKOFF);
    }
  }

  function Pow2(k: nat): nat {
    if k == 0 then 1 else 2 * Pow2(k - 1)
  }

  /** The first wait is the base; the k-th is the base doubled k times, capped. */
  function DoubledAndCapped(base: nat, k: nat): nat {
    if k == 0 then base else if base * Pow2(k) <= 30_000 then base * Pow2(k) else 30_000
  }

  lemma Doubled(base: nat, k: nat)
    requires k > 0
    ensures base * Pow2(k) == 2 * (base * Pow2(k - 1))
  {
    assert base * (2 * Pow2(k - 1)) == 2 * (base * Pow2(k - 1));
  }

  lemma FirstBackoff(base: nat)
    requires base < WORD / 2 || (base >= WORD / 2 + MAX_BACKOFF / 2 && base < WORD)
    ensures Min((base * 2) % WORD, MAX_BACKOFF) == Min(2 * base, MAX_BACKOFF)
  {}

  lemma LaterBackoff(exact: nat)
    ensures Min((Min(exact, MAX_BACKOFF) * 2) % WORD, MAX_BACKOFF) == Min(2 * exact, MAX_BACKOFF)
  {}

  lemma MinIsCap(x: nat)
    ensures Min(x, MAX_BACKOFF) == if x <= 30_000 then x else 30_000
  {}

  lemma {:induction false} BackoffDoubles(base: nat, k: nat)
    requires base < WORD / 2 || (base >= WORD / 2 + MAX_BACKOFF / 2 && base < WORD)
    ensures Backoff(base, k) == DoubledAndCapped(base, k)
  {
    hide Pow2, Min;
    if k > 0 {
      Doubled(base, k);
      BackoffDoubles(base, k - 1);
      MinIsCap(base * Pow2(k));
      MinIsCap(base * Pow2(k - 1));
      if k == 1 {
        PowZero(base);
        FirstBackoff(base);
      } else {
        LaterBackoff(base * Pow2(k - 1));
      }
    }
  }

  lemma PowZero(base: nat)
    ensures base * Pow2(0) == base
  {}

  /** The documented doubling holds for every wait exactly when the first doubling does not wrap to
      less than the cap. */
  lemma BackoffIff(base: nat)
    requires base < WORD
    ensures (forall k :: Backoff(base, k) == DoubledAndCapped(base, k))
        <==> !(0x8000_0000_0000_0000 <= base < 0x8000_0000_0000_0000 + 15_000)
  {
    if WORD / 2 <= base < WORD / 2 + MAX_BACKOFF / 2 {
      assert Pow2(1) == 2 * Pow2(0) == 2;
      assert Backoff(base, 0) == base && (base * 2) % WORD == base * 2 - WORD;
      assert Backoff(base, 1) != DoubledAndCapped(base, 1);
    } else {
      forall k ensures Backoff(base, k) == DoubledAndCapped(base, k) {
        BackoffDoubles(base, k);
      }
    }
  }

  // ---- Many batches ----

  /** The requests from number `from` on that were accepted. */
  function Accepted<R>(answer: nat -> bool, requests: seq<seq<R>>, from: nat): seq<seq<R>>
    requires from <= |requests|
    decreases |requests|
  {
    if |requests| == from then []
    else
      var n := |requests| - 1;
      Accepted(answer, requests[..n], from) + if answer(n) then [requests[n]] else []
  }

  lemma {:induction false} AcceptedAttempts<R>(answer: nat -> bool, before: seq<seq<R>>, from: nat, batch: seq<R>,
                                               retries: nat, n: nat, ok: bool)
    requires from <= |before| && Attempts(answer, |before|, retries, n, ok)
    ensures Accepted(answer, before + Repeat(batch, n), from) ==
            Accepted(answer, before, from) + if ok then [batch] else []
  {
    RefusedAttempts(answer, before, from, batch, n - 1);
    var all := before + Repeat(batch, n);
    assert all[..|all| - 1] == before + Repeat(batch, n - 1);
    assert all[|all| - 1] == batch;
  }

  lemma {:induction false} RefusedAttempts<R>(answer: nat -> bool, before: seq<seq<R>>, from: nat, batch: seq<R>,
                                              n: nat)
    requires from <= |before| && forall k :: |before| <= k < |before| + n ==> !answer(k)
    ensures Accepted(answer, before + Repeat(batch, n), from) == Accepted(answer, before, from)
  {
    var all := before + Repeat(batch, n);
    if n == 0 {
      assert all == before;
    } else {
      assert all[..|all| - 1] == before + Repeat(batch, n - 1);
      RefusedAttempts(answer, before, from, batch, n - 1);
    }
  }

  predicate Insecure(config: Config) {
    config.requireTls && !config.https && config.hasHeaders
  }

  function BatchLimit(config: Config): nat {
    if config.batchSize == 0 then 1 else config.batchSize
  }

  /** `export_payload`: secret headers never go out in the clear, and gRPC is not built in. */
  method ExportPayload<R>(config: Config, link: Link<R>, batch: seq<R>) returns (r: Result<(), Error>, ghost n: nat)
    modifies link
    ensures link.requests == old(link.requests) + Repeat(batch, n)
    ensures link.sleeps == old(link.sleeps) + Backoffs(config.baseBackoff, if n == 0 then 0 else n - 1)
    ensures var insecure := config.requireTls && !config.https && config.hasHeaders;
            if insecure || config.transport == Grpc then
              n == 0 && r == Err(if insecure then InsecureTransport else GrpcFeatureDisabled)
            else
              && Attempts(link.answer, |old(link.requests)|, config.maxRetries, n, r.Ok?)
              && (r.Err? ==> r.error == RetriesExhausted(config.maxRetries))
  {
    if Insecure(config) {
      return Err(InsecureTransport), 0;
    }
    match config.transport {
      case Http => r, n := ExportHttp(config, link, batch);
      case Grpc => return Err(GrpcFeatureDisabled), 0;
    }
  }

  /** The accepted requests make up `done`. */
  ghost predicate Delivered<R>(answer: nat -> bool, requests: seq<seq<R>>, from: nat, done: seq<R>) {
    from <= |requests| && Flatten(Accepted(answer, requests, from)) == done
  }

  /** `export`: on success the accepted batches are the records, in order and complete; on failure they
      are a proper initial part of the records. */
  method Export<R>(config: Config, link: Link<R>, records: seq<R>) returns (r: Result<(), Error>)
    requires 2 * |records| <= USIZE_MAX && config.batchSize <= USIZE_MAX
    modifies link
    ensures old(link.requests) <= link.requests
    ensures r.Ok? ==> Delivered(link.answer, link.requests, |old(link.requests)|, records)
    ensures r.Err? ==> exists n :: 0 <= n < |records| &&
                         Delivered(link.answer, link.requests, |old(link.requests)|, records[..n])
    ensures var batches := Accepted(link.answer, link.requests, |old(link.requests)|);
            forall k :: 0 <= k < |batches| ==>
              if k + 1 < |batches| || r.Err?
              then |batches[k]| == (if config.batchSize == 0 then 1 else config.batchSize)
              else 1 <= |batches[k]| <= (if config.batchSize == 0 then 1 else config.batchSize)
    ensures r.Err? ==>
              r.error == if config.requireTls && !config.https && config.hasHeaders then InsecureTransport
                         else if config.transport == Grpc then GrpcFeatureDisabled
                         else RetriesExhausted(config.maxRetries)
    ensures old(link.sleeps) <= link.sleeps
    ensures (config.requireTls && !config.https && config.hasHeaders) || config.transport == Grpc ==>
              link.requests == old(link.requests) && link.sleeps == old(link.sleeps) && (r.Ok? <==> records == [])
  {
    ghost var first := |link.requests|;
    if records == [] {
      return Ok(());
    }
    hide Delivered, Repeat, Attempts, Accepted, Sized;
    ghost var refused := Insecure(config) || config.transport == Grpc;
    var batchSize := BatchLimit(config);
    var start := 0;
    NothingDelivered(link.answer, link.requests);
    while start < |records|
      invariant start <= |records| && (start == 0 || start == |records| || batchSize <= start)
      invariant old(link.requests) <= link.requests && old(link.sleeps) <= link.sleeps
      invariant Delivered(link.answer, link.requests, first, records[..start])
      invariant Sized(Accepted(link.answer, link.requests, first), batchSize, start < |records|)
      invariant refused ==> start == 0 && link.requests == old(link.requests) && link.sleeps == old(link.sleeps)
    {
      assert start + batchSize <= USIZE_MAX;
      var end := Min(start + batchSize, |records|);
      var batch := records[start..end];
      ghost var before, n := link.requests, 0;
      r, n := ExportPayload(config, link, batch);
      DeliveredNext(link.answer, before, link.requests, first, records[..start], batch, config, n, r.Ok?);
      SizedNext(Accepted(link.answer, before, first), batch, batchSize);
      if r.Err? {
        SizedMeans(Accepted(link.answer, link.requests, first), batchSize, true);
        return;
      }
      assert records[..start] + batch == records[..end];
      start := end;
    }
    assert records[..start] == records;
    SizedMeans(Accepted(link.answer, link.requests, first), batchSize, false);
    return Ok(());
  }

  lemma NothingDelivered<R>(answer: nat -> bool, requests: seq<seq<R>>)
    ensures Delivered(answer, requests, |requests|, [])
    ensures forall size, more :: Sized(Accepted(answer, requests, |requests|), size, more)
  {}

  /** Full batches; when there is no more to come, the last one need only be not empty. */
  predicate Sized<R>(batches: seq<seq<R>>, size: nat, more: bool) {
    forall k :: 0 <= k < |batches| ==>
      if k + 1 < |batches| || more then |batches[k]| == size else 1 <= |batches[k]| <= size
  }

  lemma SizedMeans<R>(batches: seq<seq<R>>, size: nat, more: bool)
    requires Sized(batches, size, more)
    ensures forall k :: 0 <= k < |batches| ==>
              if k + 1 < |batches| || more then |batches[k]| == size else 1 <= |batches[k]| <= size
  {}

  lemma SizedNext<R>(batches: seq<seq<R>>, batch: seq<R>, size: nat)
    requires Sized(batches, size, true) && 1 <= |batch| <= size
    ensures batches + [] == batches
    ensures Sized(batches + [batch], size, false) && (|batch| == size ==> Sized(batches + [batch], size, true))
  {}

  lemma DeliveredNext<R>(answer: nat -> bool, before: seq<seq<R>>, after: seq<seq<R>>, from: nat,
                         done: seq<R>, batch: seq<R>, config: Config, n: nat, ok: bool)
    requires Delivered(answer, before, from, done)
    requires after == before + Repeat(batch, n)
    requires if Insecure(config) || config.transport == Grpc then n == 0 && !ok
             else Attempts(answer, |before|, config.maxRetries, n, ok)
    ensures before <= after && (n == 0 ==> after == before)
    ensures Delivered(answer, after, from, if ok then done + batch else done) && from <= |before|
    ensures Accepted(answer, after, from) == Accepted(answer, before, from) + if ok then [batch] else []
  {
    if n == 0 {
      assert after == before;
    } else {
      AcceptedAttempts(answer, before, from, batch, config.maxRetries, n, ok);
      hide Accepted, Repeat, Attempts;
      var accepted := Accepted(answer, before, from);
      if ok {
        FlattenAppend(accepted, [batch]);
        assert [batch][1..] == [] && batch + [] == batch;
      } else {
        assert accepted + [] == accepted;
      }
    }
  }
}
