/**
 * The Telegram sender's retry policy: `_is_retryable_api_error`,
 * `_retry_delay_seconds`, the attempt loop of `send_chunk_with_retry`, and
 * `send_text`, which sends the chunks in order. Each HTTP call is an entry
 * of a script, `call(chunkIndex, attempt)`; sleeping is recorded as a delay.
 */
module TelegramRetry {
  import opened Wrappers
  import opened Chunking

  /** What one `sendMessage` call does: succeed, raise `TelegramAPIError`
      (with the optional `retry_after` of the reply), or raise `NetworkError`. */
  datatype CallOutcome = Delivered | ApiFailure(statusCode: int, retryAfter: Option<nat>) | NetworkFailure

  /** `_is_retryable_api_error`: rate limiting or a server-side error. */
  predicate IsRetryable(statusCode: int) {
    statusCode == 429 || 500 <= statusCode <= 599
  }

  function Pow2(n: nat): (p: nat)
    ensures p >= 1
  {
    if n == 0 then 1 else 2 * Pow2(n - 1)
  }

  /** `_retry_delay_seconds`: the server's `retry_after` when it gave one,
      otherwise exponential backoff 1, 2, 4, ... for retries 1, 2, 3, ... */
  function RetryDelay(retryNumber: int, retryAfter: Option<nat>): (d: nat)
    requires retryNumber >= 1
    ensures retryAfter.Some? ==> d == retryAfter.value
    ensures retryAfter.None? ==> d >= 1
  {
    if retryAfter.Some? then retryAfter.value else Pow2(retryNumber - 1)
  }

  /** Without `retry_after`, each retry waits twice as long as the one before, starting from one second. */
  lemma BackoffDoubles(n: int)
    requires n >= 1
    ensures RetryDelay(1, None) == 1
    ensures RetryDelay(n + 1, None) == 2 * RetryDelay(n, None)
  {
  }

  /** A failure the loop may retry: a network error, or an API error with a retryable code. */
  predicate Transient(o: CallOutcome) {
    o.NetworkFailure? || (o.ApiFailure? && IsRetryable(o.statusCode))
  }

  /** The pause after failed attempt `attempt` (which is retry number `attempt`). */
  function DelayAfter(attempt: int, o: CallOutcome): nat
    requires attempt >= 1
  {
    if o.ApiFailure? then RetryDelay(attempt, o.retryAfter) else RetryDelay(attempt, None)
  }

  function Max0(n: int): nat {
    if n < 0 then 0 else n
  }

  /** A chunk's fate: `Ok(attempt)` when attempt `attempt` delivered it, or the
      error that propagated; `delays` are the pauses between attempts. */
  datatype RetryRun = RetryRun(outcome: Result<nat, CallOutcome>, delays: seq<nat>) {
    /** The number of calls made. */
    function Attempts(): nat { |delays| + 1 }
  }

  /** The attempt loop from attempt `attempt` on. */
  function RetryFrom(call: (nat, nat) -> CallOutcome, chunk: nat, maxRetries: int, attempt: nat): RetryRun
    requires 1 <= attempt <= Max0(maxRetries) + 1
    decreases Max0(maxRetries) + 1 - attempt
  {
    var o := call(chunk, attempt);
    var retriesUsed := attempt - 1;
    if o.Delivered? then RetryRun(Ok(attempt), [])
    else if (o.ApiFailure? && !IsRetryable(o.statusCode)) || retriesUsed >= maxRetries then RetryRun(Err(o), [])
    else
      var rest := RetryFrom(call, chunk, maxRetries, attempt + 1);
      rest.(delays := [DelayAfter(attempt, o)] + rest.delays)
  }

  /** What `send_chunk_with_retry` does for chunk number `chunk`. */
  function Retry(call: (nat, nat) -> CallOutcome, chunk: nat, maxRetries: int): RetryRun {
    RetryFrom(call, chunk, maxRetries, 1)
  }

  /** The attempt loop, described by what it does: every call before the
      last failed transiently and was followed by its delay; the last call
      either delivered the chunk (whose attempt number is returned) or raised
      an error that is not retryable or came after `max_retries` retries. */
  lemma {:induction false} RetryFromSpec(call: (nat, nat) -> CallOutcome, chunk: nat, maxRetries: int, attempt: nat)
    requires 1 <= attempt <= Max0(maxRetries) + 1
    ensures var run := RetryFrom(call, chunk, maxRetries, attempt);
      var last := attempt + |run.delays|;
      && last <= Max0(maxRetries) + 1
      && (forall a :: attempt <= a < last ==> Transient(call(chunk, a)) && run.delays[a - attempt] == DelayAfter(a, call(chunk, a)))
      && (run.outcome.Ok? <==> call(chunk, last).Delivered?)
      && (run.outcome.Ok? ==> run.outcome.value == last)
      && (run.outcome.Err? ==> run.outcome.error == call(chunk, last) && (!Transient(call(chunk, last)) || last - 1 >= maxRetries))
    decreases Max0(maxRetries) + 1 - attempt
  {
    var o := call(chunk, attempt);
    if !o.Delivered? && !((o.ApiFailure? && !IsRetryable(o.statusCode)) || attempt - 1 >= maxRetries) {
      RetryFromSpec(call, chunk, maxRetries, attempt + 1);
    }
  }

  /** The attempt loop for chunk `chunk`, described by what it does: every
      call before the last failed transiently and was followed by its pause;
      the last call either delivered the chunk, and its attempt number is the
      result, or raised an error that is not retryable or came after
      `max_retries` retries; at most `max_retries + 1` calls are made. */
  ghost predicate Behaves(call: (nat, nat) -> CallOutcome, chunk: nat, maxRetries: int, run: RetryRun) {
    var last := run.Attempts();
    && last <= Max0(maxRetries) + 1
    && (forall a :: 1 <= a < last ==> Transient(call(chunk, a)) && run.delays[a - 1] == DelayAfter(a, call(chunk, a)))
    && (run.outcome.Ok? <==> call(chunk, last).Delivered?)
    && (run.outcome.Ok? ==> run.outcome.value == last)
    && (run.outcome.Err? ==> run.outcome.error == call(chunk, last) && (!Transient(call(chunk, last)) || last - 1 >= maxRetries))
  }

  lemma RetrySpec(call: (nat, nat) -> CallOutcome, chunk: nat, maxRetries: int)
    ensures Behaves(call, chunk, maxRetries, Retry(call, chunk, maxRetries))
  {
    RetryFromSpec(call, chunk, maxRetries, 1);
  }

  /** A retried attempt contributes its pause and hands over to the next attempt. */
  lemma RetryFromStep(call: (nat, nat) -> CallOutcome, chunk: nat, maxRetries: int, attempt: nat, before: seq<nat>)
    requires 1 <= attempt <= Max0(maxRetries)
    requires Transient(call(chunk, attempt)) && attempt - 1 < maxRetries
    ensures var rest := RetryFrom(call, chunk, maxRetries, attempt + 1);
      && RetryFrom(call, chunk, maxRetries, attempt).outcome == rest.outcome
      && before + RetryFrom(call, chunk, maxRetries, attempt).delays
         == (before + [DelayAfter(attempt, call(chunk, attempt))]) + rest.delays
  {
  }

  /** `send_chunk_with_retry` for chunk number `chunk`: returns the attempt
      that delivered it, or the error that propagates, with the pauses taken. */
  method SendChunkWithRetry(call: (nat, nat) -> CallOutcome, chunk: nat, maxRetries: int)
    returns (outcome: Result<nat, CallOutcome>, delays: seq<nat>)
    ensures RetryRun(outcome, delays) == Retry(call, chunk, maxRetries)
    ensures Behaves(call, chunk, maxRetries, RetryRun(outcome, delays))
  {
    var attempt := 0;
    delays := [];
    outcome := Ok(0);
    var done := false;
    while !done
      invariant !done ==> attempt <= Max0(maxRetries) && |delays| == attempt
      invariant !done ==> Retry(call, chunk, maxRetries).outcome == RetryFrom(call, chunk, maxRetries, attempt + 1).outcome
      invariant !done ==> Retry(call, chunk, maxRetries).delays == delays + RetryFrom(call, chunk, maxRetries, attempt + 1).delays
      invariant done ==> RetryRun(outcome, delays) == Retry(call, chunk, maxRetries)
      decreases Max0(maxRetries) + 1 - attempt, if done then 0 else 1
    {
      attempt := attempt + 1;
      ghost var rest := RetryFrom(call, chunk, maxRetries, attempt);
      var o := call(chunk, attempt);
      if o.Delivered? {
        outcome := Ok(attempt);
        done := true;
      } else {
        var retriesUsed := attempt - 1;
        if (o.ApiFailure? && !IsRetryable(o.statusCode)) || retriesUsed >= maxRetries {
          outcome := Err(o);
          done := true;
        } else {
          var delay := if o.ApiFailure? then RetryDelay(retriesUsed + 1, o.retryAfter) else RetryDelay(retriesUsed + 1, None);
          RetryFromStep(call, chunk, maxRetries, attempt, delays);
          delays := delays + [delay];
        }
      }
    }
    RetrySpec(call, chunk, maxRetries);
  }

  /** The calls made for a sequence of chunk runs. */
  function TotalAttempts(runs: seq<RetryRun>): nat {
    if runs == [] then 0 else TotalAttempts(runs[..|runs| - 1]) + runs[|runs| - 1].Attempts()
  }

  lemma {:induction false} TotalAttemptsAtLeast(runs: seq<RetryRun>)
    ensures TotalAttempts(runs) >= |runs|
  {
    if runs != [] {
      TotalAttemptsAtLeast(runs[..|runs| - 1]);
    }
  }

  /** After sending the first `|runs|` chunks: chunk `i + 1` got run
      `runs[i]`, all but possibly the last run succeeded, and `failure` and
      `total` are the propagating error or the running count of calls. */
  ghost predicate SendState(runs: seq<RetryRun>, total: nat, failure: Option<CallOutcome>,
                            call: (nat, nat) -> CallOutcome, maxRetries: int)
  {
    && (forall i :: 0 <= i < |runs| ==> runs[i] == Retry(call, i + 1, maxRetries))
    && (forall i :: 0 <= i < |runs| - 1 ==> runs[i].outcome.Ok?)
    && (failure.None? ==> total == TotalAttempts(runs) && forall i :: 0 <= i < |runs| ==> runs[i].outcome.Ok?)
    && (failure.Some? ==> |runs| > 0 && runs[|runs| - 1].outcome == Err(failure.value))
  }

  lemma SendStep(runs: seq<RetryRun>, run: RetryRun, total: nat, call: (nat, nat) -> CallOutcome, maxRetries: int)
    requires SendState(runs, total, None, call, maxRetries)
    requires run == Retry(call, |runs| + 1, maxRetries)
    ensures run.outcome.Ok? ==> SendState(runs + [run], total + run.outcome.value, None, call, maxRetries)
    ensures run.outcome.Err? ==> SendState(runs + [run], total, Some(run.outcome.error), call, maxRetries)
  {
    RetrySpec(call, |runs| + 1, maxRetries);
    assert (runs + [run])[..|runs|] == runs;
  }

  /** `send_text`: the text is split into chunks of at most 4096 characters,
      which are sent in order; chunk `i` (from 1) gets `runs[i - 1]`. The first
      error propagates and no later chunk is sent; otherwise the result is the
      total number of calls, at least one per chunk. */
  method SendText(text: string, call: (nat, nat) -> CallOutcome, maxRetries: int)
    returns (r: Result<nat, CallOutcome>, runs: seq<RetryRun>)
    ensures |runs| <= |Chunks(text, MaxMessageLength)|
    ensures SendState(runs, if r.Ok? then r.value else 0, if r.Ok? then None else Some(r.error), call, maxRetries)
    ensures r.Ok? <==> |runs| == |Chunks(text, MaxMessageLength)| && forall i :: 0 <= i < |runs| ==> runs[i].outcome.Ok?
    ensures r.Ok? ==> r.value == TotalAttempts(runs) && r.value >= |Chunks(text, MaxMessageLength)|
  {
    var split := SplitIntoChunks(text, MaxMessageLength);
    var chunks := split.value;
    var total := 0;
    runs := [];
    var failure: Option<CallOutcome> := None;
    var index := 0;
    while index < |chunks| && failure.None?
      invariant 0 <= index <= |chunks| && |runs| == index
      invariant SendState(runs, total, failure, call, maxRetries)
    {
      var outcome, delays := SendChunkWithRetry(call, index + 1, maxRetries);
      SendStep(runs, RetryRun(outcome, delays), total, call, maxRetries);
      runs := runs + [RetryRun(outcome, delays)];
      if outcome.Ok? {
        total := total + outcome.value;
      } else {
        failure := Some(outcome.error);
      }
      index := index + 1;
    }
    if failure.Some? {
      r := Err(failure.value);
    } else {
      TotalAttemptsAtLeast(runs);
      r := Ok(total);
    }
  }

  /** A non-retryable API error on the first attempt propagates at once: one call, no pause. */
  lemma NonRetryableFailsFast(call: (nat, nat) -> CallOutcome, chunk: nat, maxRetries: int)
    requires call(chunk, 1).ApiFailure? && !IsRetryable(call(chunk, 1).statusCode)
    ensures Retry(call, chunk, maxRetries) == RetryRun(Err(call(chunk, 1)), [])
  {
  }

  /** With the default of three retries and a server that keeps failing with 500, the chunk is tried four times, pausing 1, 2 and 4 seconds. */
  lemma PersistentServerError(call: (nat, nat) -> CallOutcome, chunk: nat)
    requires forall a :: call(chunk, a) == ApiFailure(500, None)
    ensures Retry(call, chunk, 3) == RetryRun(Err(ApiFailure(500, None)), [1, 2, 4])
  {
    assert RetryFrom(call, chunk, 3, 4) == RetryRun(Err(ApiFailure(500, None)), []);
    assert RetryFrom(call, chunk, 3, 3).delays == [4];
    assert RetryFrom(call, chunk, 3, 2).delays == [2, 4];
  }
}
