/**
 * The Bedrock analysis handler: read a bill's text from S3, extract the
 * eight terms, call the model with up to five attempts and exponential
 * backoff on throttling, and write the combined result back to S3.
 *
 * The services are scripted: the read and the write each have one outcome,
 * and `invoke(n)` is how the model call on 0-indexed attempt `n` ends. A run
 * returns the handler's response and the trace of service calls and sleeps
 * it made, in order.
 */
module Bedrock {
  import opened Wrappers
  import opened S3Events
  import Paths
  import Terms

  /** `max_retries`: the number of model calls the handler may make. */
  const MaxRetries: nat := 5

  /** The decoded JSON body of a model reply, passed through untouched. */
  datatype ModelResponse = ModelResponse(json: string)

  /** How `get_object` and the UTF-8 decode of its body end. */
  datatype ReadOutcome = Body(text: string) | NoSuchKey | ReadError

  /** How one `invoke_model` call, with the decode of its reply, ends. */
  datatype InvokeOutcome = Generated(response: ModelResponse) | Throttled | InvokeError

  /** The object written to S3: `{"analysis": {"bedrock_response": ..., "extracted_terms": ...}}`. */
  datatype Analysis = Analysis(bedrockResponse: ModelResponse, extractedTerms: map<string, Option<string>>)

  /** An observable step of the handler. `Sleep` carries the whole-second part `2 ** attempt` of the delay. */
  datatype Action =
    | GetObject(bucket: string, key: string)
    | InvokeModel(attempt: nat)
    | Sleep(base: nat)
    | PutObject(bucket: string, key: string, body: Analysis)

  /** How the retry loop ends, before the write. */
  datatype RetryOutcome = Succeeded(response: ModelResponse) | Failed | Exhausted

  function Pow2(n: nat): (r: nat)
    ensures r >= 1
  {
    if n == 0 then 1 else 2 * Pow2(n - 1)
  }

  /** The whole-second part of the backoff doubles from one attempt to the next, so even with jitter in [0, 1) the delays strictly grow. */
  lemma JitteredDelaysGrow(n: nat, jitter: real, nextJitter: real)
    requires 0.0 <= jitter < 1.0 && 0.0 <= nextJitter < 1.0
    ensures Pow2(n) as real + jitter < Pow2(n + 1) as real + nextJitter
  {
    assert Pow2(n + 1) == 2 * Pow2(n);
  }

  /** `event['Records'][0]['s3']['object']['key']`, or `None` when that lookup raises. */
  function EventKey(event: Event): (r: Option<string>)
    ensures r.Some? <==>
      event.records.Some? && |event.records.value| >= 1 && event.records.value[0].key.Some?
    ensures r.Some? ==> r == event.records.value[0].key
  {
    match event.records
    case None => None
    case Some(records) => if |records| == 0 then None else records[0].key
  }

  /** The result key: the stem of the input key followed by `_result.json`. */
  function OutputKey(fileKey: string): (r: string)
    ensures '/' !in r
    ensures |r| >= 12 && r[|r| - 12..] == "_result.json"
    ensures r[..|r| - 12] == Paths.Stem(fileKey)
  {
    var r := Paths.Stem(fileKey) + "_result.json";
    assert r[|r| - 12..] == "_result.json";
    r
  }

  /** The result key depends only on the last `/`-segment of the input key. */
  lemma OutputKeyIgnoresDirectory(dir: string, name: string)
    ensures OutputKey(dir + "/" + name) == OutputKey(name)
  {
    Paths.StemOfPath(dir, name);
  }

  /** The result key is a function of the input key's stem alone: a key and its stem name the same result. */
  lemma OutputKeyOfStem(fileKey: string)
    ensures OutputKey(Paths.Stem(fileKey)) == OutputKey(fileKey)
  {
    Paths.StemOfStem(fileKey);
  }

  ghost predicate ThrottledBefore(invoke: nat -> InvokeOutcome, n: nat)
  {
    forall m: nat :: m < n ==> invoke(m).Throttled?
  }

  /**
   * The retry loop from attempt `n`: a call, and on throttling either a
   * sleep of base `2 ** n` and the next attempt, or, on the last attempt,
   * exhaustion. Any other error ends the loop at once.
   */
  function Attempts(invoke: nat -> InvokeOutcome, n: nat): (r: (RetryOutcome, seq<Action>))
    requires n < MaxRetries
    ensures 1 <= |r.1| <= 2 * (MaxRetries - n) - 1 && r.1[0] == InvokeModel(n)
    decreases MaxRetries - n
  {
    match invoke(n)
    case Generated(resp) => (Succeeded(resp), [InvokeModel(n)])
    case InvokeError => (Failed, [InvokeModel(n)])
    case Throttled =>
      if n < MaxRetries - 1 then
        var next := Attempts(invoke, n + 1);
        (next.0, [InvokeModel(n), Sleep(Pow2(n))] + next.1)
      else (Exhausted, [InvokeModel(n)])
  }

  /** The calls and sleeps of `n` throttled attempts. */
  function Backoff(n: nat): (r: seq<Action>)
    ensures |r| == 2 * n
  {
    if n == 0 then [] else Backoff(n - 1) + [InvokeModel(n - 1), Sleep(Pow2(n - 1))]
  }

  /**
   * A whole invocation of the handler. It starts with the read of the
   * event's key, takes at most eleven steps (the read, five calls, four
   * sleeps and the write), and a 200 ends with a write.
   */
  function Run(bucket: string, event: Event, read: ReadOutcome, invoke: nat -> InvokeOutcome, write: WriteOutcome)
    : (r: (Response, seq<Action>))
    ensures r.1 == [] <==> EventKey(event).None?
    ensures r.1 != [] ==> EventKey(event).Some? && r.1[0] == GetObject(bucket, EventKey(event).value)
    ensures |r.1| <= 2 * MaxRetries + 1
    ensures r.0 == Reply(200) ==> read.Body? && write == Stored && |r.1| >= 3 && r.1[|r.1| - 1].PutObject?
  {
    match EventKey(event)
    case None => (Uncaught, [])
    case Some(fileKey) =>
      var get := [GetObject(bucket, fileKey)];
      match read
      case NoSuchKey => (Reply(404), get)
      case ReadError => (Reply(500), get)
      case Body(text) =>
        var (outcome, calls) := Attempts(invoke, 0);
        match outcome
        case Succeeded(resp) =>
          var put := PutObject(bucket, OutputKey(fileKey), Analysis(resp, Terms.ExtractTerms(text)));
          (Reply(if write == Stored then 200 else 500), get + calls + [put])
        case _ => (Reply(500), get + calls)
  }

  /** After `n` throttled attempts the loop has made the calls and sleeps of `Backoff(n)` and goes on from attempt `n`. */
  lemma {:induction false} AttemptsUnroll(invoke: nat -> InvokeOutcome, n: nat)
    requires n < MaxRetries && ThrottledBefore(invoke, n)
    ensures Attempts(invoke, 0).0 == Attempts(invoke, n).0
    ensures Attempts(invoke, 0).1 == Backoff(n) + Attempts(invoke, n).1
  {
    if n > 0 {
      AttemptsUnroll(invoke, n - 1);
      AttemptThrottled(invoke, n - 1);
      var pre, step, rest := Backoff(n - 1), [InvokeModel(n - 1), Sleep(Pow2(n - 1))], Attempts(invoke, n).1;
      assert pre + (step + rest) == pre + step + rest;
    }
  }

  /** A throttled attempt other than the last: one call, one sleep, then the next attempt. */
  lemma AttemptThrottled(invoke: nat -> InvokeOutcome, n: nat)
    requires n < MaxRetries - 1 && invoke(n).Throttled?
    ensures Attempts(invoke, n).0 == Attempts(invoke, n + 1).0
    ensures Attempts(invoke, n).1 == [InvokeModel(n), Sleep(Pow2(n))] + Attempts(invoke, n + 1).1
  {
  }

  /** A call that succeeds after `n` throttled attempts is followed by exactly one write, whose outcome decides between 200 and 500. */
  lemma RunSucceedsAt(bucket: string, event: Event, read: ReadOutcome, invoke: nat -> InvokeOutcome, write: WriteOutcome, n: nat)
    requires EventKey(event).Some? && read.Body?
    requires n < MaxRetries && ThrottledBefore(invoke, n) && invoke(n).Generated?
    ensures var fileKey := EventKey(event).value;
      var put := PutObject(bucket, OutputKey(fileKey), Analysis(invoke(n).response, Terms.ExtractTerms(read.text)));
      Run(bucket, event, read, invoke, write) ==
        (Reply(if write == Stored then 200 else 500), [GetObject(bucket, fileKey)] + Backoff(n) + [InvokeModel(n), put])
  {
    AttemptsUnroll(invoke, n);
    var fileKey := EventKey(event).value;
    var calls := Attempts(invoke, 0).1;
    var put := PutObject(bucket, OutputKey(fileKey), Analysis(invoke(n).response, Terms.ExtractTerms(read.text)));
    assert [GetObject(bucket, fileKey)] + calls + [put] == [GetObject(bucket, fileKey)] + Backoff(n) + [InvokeModel(n), put];
  }

  /**
   * A non-throttling error after `n` throttled attempts, or throttling on the
   * last attempt, ends the run with 500 and no write: the trace stops at that call.
   */
  lemma RunFailsAt(bucket: string, event: Event, read: ReadOutcome, invoke: nat -> InvokeOutcome, write: WriteOutcome, n: nat)
    requires EventKey(event).Some? && read.Body?
    requires n < MaxRetries && ThrottledBefore(invoke, n)
    requires invoke(n).InvokeError? || (invoke(n).Throttled? && n == MaxRetries - 1)
    ensures Run(bucket, event, read, invoke, write) ==
      (Reply(500), [GetObject(bucket, EventKey(event).value)] + Backoff(n) + [InvokeModel(n)])
  {
    AttemptsUnroll(invoke, n);
    var fileKey := EventKey(event).value;
    assert [GetObject(bucket, fileKey)] + (Backoff(n) + [InvokeModel(n)]) == [GetObject(bucket, fileKey)] + Backoff(n) + [InvokeModel(n)];
  }

  /**
   * The handler, step by step: a `for attempt in range(max_retries)` loop
   * whose body returns on success, on a non-throttling error and on the last
   * throttled attempt, and otherwise sleeps and goes round again.
   */
  method LambdaHandler(bucket: string, event: Event, read: ReadOutcome, invoke: nat -> InvokeOutcome, write: WriteOutcome)
    returns (response: Response, trace: seq<Action>)
    ensures (response, trace) == Run(bucket, event, read, invoke, write)
  {
    var key := EventKey(event);
    if key.None? {
      return Uncaught, [];
    }
    var fileKey := key.value;
    trace := [GetObject(bucket, fileKey)];
    match read {
      case NoSuchKey =>
        return Reply(404), trace;
      case ReadError =>
        return Reply(500), trace;
      case Body(text) =>
        var extracted := Terms.ExtractTerms(text);
        for attempt := 0 to MaxRetries
          invariant attempt < MaxRetries
          invariant ThrottledBefore(invoke, attempt)
          invariant trace == [GetObject(bucket, fileKey)] + Backoff(attempt)
        {
          trace := trace + [InvokeModel(attempt)];
          match invoke(attempt) {
            case Generated(resp) =>
              var outputKey := OutputKey(fileKey);
              trace := trace + [PutObject(bucket, outputKey, Analysis(resp, extracted))];
              RunSucceedsAt(bucket, event, read, invoke, write, attempt);
              assert trace == [GetObject(bucket, fileKey)] + Backoff(attempt) + [InvokeModel(attempt), PutObject(bucket, outputKey, Analysis(resp, extracted))];
              if write == Stored {
                assert Run(bucket, event, read, invoke, write).0 == Reply(200);
                assert Run(bucket, event, read, invoke, write).1 == trace;
                return Reply(200), trace;
              }
              return Reply(500), trace;
            case InvokeError =>
              RunFailsAt(bucket, event, read, invoke, write, attempt);
              return Reply(500), trace;
            case Throttled =>
              if attempt < MaxRetries - 1 {
                trace := trace + [Sleep(Pow2(attempt))];
              } else {
                RunFailsAt(bucket, event, read, invoke, write, attempt);
                return Reply(500), trace;
              }
          }
        }
    }
  }

  // ---------------------------------------------------------------------
  // What a run does, stated over its trace

  /** The attempt numbers of the model calls in a trace, in order. */
  function Calls(trace: seq<Action>): seq<nat>
  {
    if trace == [] then []
    else
      var last := trace[|trace| - 1];
      Calls(trace[..|trace| - 1]) + (if last.InvokeModel? then [last.attempt] else [])
  }

  /** The backoff bases of the sleeps in a trace, in order. */
  function Sleeps(trace: seq<Action>): seq<nat>
  {
    if trace == [] then []
    else
      var last := trace[|trace| - 1];
      Sleeps(trace[..|trace| - 1]) + (if last.Sleep? then [last.base] else [])
  }

  /** `[0, 1, ..., k - 1]`. */
  function Upto(k: nat): seq<nat>
  {
    if k == 0 then [] else Upto(k - 1) + [k - 1]
  }

  /** `[2 ** 0, 2 ** 1, ..., 2 ** (k - 1)]`. */
  function Doublings(k: nat): seq<nat>
  {
    if k == 0 then [] else Doublings(k - 1) + [Pow2(k - 1)]
  }

  lemma {:induction false} CallsAppend(a: seq<Action>, b: seq<Action>)
    ensures Calls(a + b) == Calls(a) + Calls(b)
    ensures Sleeps(a + b) == Sleeps(a) + Sleeps(b)
    decreases |b|
  {
    if b != [] {
      var b' := b[..|b| - 1];
      CallsAppend(a, b');
      assert (a + b)[..|a + b| - 1] == a + b';
    } else {
      assert a + b == a;
    }
  }

  lemma StepsOfOne(a: Action)
    ensures Calls([a]) == (if a.InvokeModel? then [a.attempt] else [])
    ensures Sleeps([a]) == (if a.Sleep? then [a.base] else [])
  {
    assert [a][..0] == [];
  }

  /** One throttled attempt adds one call and one sleep. */
  lemma StepsOfRetry(n: nat)
    ensures Calls([InvokeModel(n), Sleep(Pow2(n))]) == [n]
    ensures Sleeps([InvokeModel(n), Sleep(Pow2(n))]) == [Pow2(n)]
  {
    StepsOfOne(InvokeModel(n));
    StepsOfOne(Sleep(Pow2(n)));
    CallsAppend([InvokeModel(n)], [Sleep(Pow2(n))]);
    assert [InvokeModel(n)] + [Sleep(Pow2(n))] == [InvokeModel(n), Sleep(Pow2(n))];
  }

  lemma {:induction false} BackoffSteps(n: nat)
    ensures Calls(Backoff(n)) == Upto(n)
    ensures Sleeps(Backoff(n)) == Doublings(n)
  {
    if n > 0 {
      var b := Backoff(n - 1);
      var step := [InvokeModel(n - 1), Sleep(Pow2(n - 1))];
      BackoffSteps(n - 1);
      StepsOfRetry(n - 1);
      CallsAppend(b, step);
      assert Backoff(n) == b + step;
      assert Calls(b + step) == Upto(n - 1) + [n - 1];
      assert Sleeps(b + step) == Doublings(n - 1) + [Pow2(n - 1)];
    }
  }

  /** Step `q` of `n` throttled attempts: call number `q / 2` at even steps, the sleep after it at odd ones. */
  lemma {:induction false} BackoffAt(n: nat, q: nat)
    requires q < 2 * n
    ensures Backoff(n)[q] == if q % 2 == 0 then InvokeModel(q / 2) else Sleep(Pow2(q / 2))
  {
    var pre := Backoff(n - 1);
    assert Backoff(n) == pre + [InvokeModel(n - 1), Sleep(Pow2(n - 1))];
    if q < 2 * (n - 1) {
      BackoffAt(n - 1, q);
    } else if q == 2 * (n - 1) {
      assert q / 2 == n - 1 && q % 2 == 0;
    } else {
      assert q / 2 == n - 1 && q % 2 == 1;
    }
  }

  lemma {:induction false} BackoffWritesNothing(n: nat)
    ensures forall a :: a in Backoff(n) ==> !a.PutObject?
  {
    if n > 0 {
      BackoffWritesNothing(n - 1);
      assert Backoff(n) == Backoff(n - 1) + [InvokeModel(n - 1), Sleep(Pow2(n - 1))];
    }
  }

  lemma {:induction false} Pow2Grows(m: nat, n: nat)
    requires m < n
    ensures Pow2(m) < Pow2(n)
    decreases n
  {
    if m < n - 1 {
      Pow2Grows(m, n - 1);
    }
  }

  lemma {:induction false} DoublingsAt(k: nat, q: nat)
    requires q < k
    ensures |Doublings(k)| == k && Doublings(k)[q] == Pow2(q)
  {
    if q < k - 1 {
      DoublingsAt(k - 1, q);
    } else if k > 1 {
      DoublingsAt(k - 1, 0);
    }
  }

  /** The backoff bases form a strictly increasing sequence. */
  lemma DoublingsIncrease(k: nat)
    ensures forall q, q' :: 0 <= q < q' < |Doublings(k)| ==> Doublings(k)[q] < Doublings(k)[q']
  {
    forall q, q' | 0 <= q < q' < |Doublings(k)| ensures Doublings(k)[q] < Doublings(k)[q'] {
      if k > 0 {
        DoublingsAt(k, 0);
      }
      DoublingsAt(k, q);
      DoublingsAt(k, q');
      Pow2Grows(q, q');
    }
  }

  lemma {:induction false} RetryShapeFrom(invoke: nat -> InvokeOutcome, n: nat) returns (m: nat)
    requires n < MaxRetries && ThrottledBefore(invoke, n)
    ensures n <= m < MaxRetries && ThrottledBefore(invoke, m)
    ensures !invoke(m).Throttled? || m == MaxRetries - 1
    decreases MaxRetries - n
  {
    if invoke(n).Throttled? && n < MaxRetries - 1 {
      m := RetryShapeFrom(invoke, n + 1);
    } else {
      m := n;
    }
  }

  /**
   * The retry loop makes its calls up to and including the first one that is
   * not throttled, or all five; it sleeps after every call but the last.
   */
  lemma RetryShape(invoke: nat -> InvokeOutcome) returns (n: nat)
    ensures n < MaxRetries && ThrottledBefore(invoke, n)
    ensures !invoke(n).Throttled? || n == MaxRetries - 1
    ensures Attempts(invoke, 0).1 == Backoff(n) + [InvokeModel(n)]
    ensures Attempts(invoke, 0).0 ==
      match invoke(n)
      case Generated(resp) => Succeeded(resp)
      case InvokeError => Failed
      case Throttled => Exhausted
  {
    n := RetryShapeFrom(invoke, 0);
    AttemptsUnroll(invoke, n);
  }

  /**
   * A run calls the model at most five times, with attempt numbers 0, 1, ...
   * in order, and sleeps once between consecutive calls with bases 1, 2, 4, 8.
   */
  lemma StepsOfAttempts(get: Action, n: nat)
    requires !get.InvokeModel? && !get.Sleep?
    ensures Calls([get] + Backoff(n) + [InvokeModel(n)]) == Upto(n + 1)
    ensures Sleeps([get] + Backoff(n) + [InvokeModel(n)]) == Doublings(n)
  {
    var b := Backoff(n);
    BackoffSteps(n);
    StepsOfOne(get);
    StepsOfOne(InvokeModel(n));
    CallsAppend([get], b);
    var front := [get] + b;
    assert Calls(front) == Upto(n) && Sleeps(front) == Doublings(n);
    CallsAppend(front, [InvokeModel(n)]);
    assert Calls(front + [InvokeModel(n)]) == Upto(n) + [n];
  }

  /** Once the file was read, a run's trace is the read, the retry loop's calls and sleeps, and at most one write. */
  lemma RunTraceShape(bucket: string, event: Event, read: ReadOutcome, invoke: nat -> InvokeOutcome, write: WriteOutcome)
    returns (n: nat, after: seq<Action>)
    requires EventKey(event).Some? && read.Body?
    ensures n < MaxRetries && ThrottledBefore(invoke, n)
    ensures Run(bucket, event, read, invoke, write).1 ==
      [GetObject(bucket, EventKey(event).value)] + Backoff(n) + [InvokeModel(n)] + after
    ensures |after| <= 1 && (after != [] ==> after[0].PutObject?)
    ensures after != [] ==>
      (invoke(n).Generated? && after ==
        [PutObject(bucket, OutputKey(EventKey(event).value), Analysis(invoke(n).response, Terms.ExtractTerms(read.text)))])
  {
    n := RetryShape(invoke);
    var get := GetObject(bucket, EventKey(event).value);
    if invoke(n).Generated? {
      RunSucceedsAt(bucket, event, read, invoke, write, n);
      var put := PutObject(bucket, OutputKey(EventKey(event).value),
                           Analysis(invoke(n).response, Terms.ExtractTerms(read.text)));
      after := [put];
      assert [get] + Backoff(n) + [InvokeModel(n), put] == [get] + Backoff(n) + [InvokeModel(n)] + after;
    } else {
      RunFailsAt(bucket, event, read, invoke, write, n);
      after := [];
      assert [get] + Backoff(n) + [InvokeModel(n)] + after == [get] + Backoff(n) + [InvokeModel(n)];
    }
  }

  /**
   * Every sleep of a trace sits between two consecutive model calls: right
   * after call `k`, with base `2 ** k`, and right before call `k + 1`.
   */
  ghost predicate SleepsBetweenCalls(trace: seq<Action>)
  {
    forall q :: 0 <= q < |trace| && trace[q].Sleep? ==>
      0 < q < |trace| - 1 && trace[q - 1].InvokeModel?
      && trace[q].base == Pow2(trace[q - 1].attempt)
      && trace[q + 1] == InvokeModel(trace[q - 1].attempt + 1)
  }

  /**
   * The model calls of a trace carry attempt numbers 0, 1, ... in order, at
   * most five of them, the sleeps have bases 1, 2, 4, ..., one fewer than the
   * calls, and each sleep sits between two consecutive calls.
   */
  ghost predicate RetryCadence(trace: seq<Action>)
  {
    var calls := Calls(trace);
    |calls| <= MaxRetries && calls == Upto(|calls|)
    && Sleeps(trace) == Doublings(if |calls| == 0 then 0 else |calls| - 1)
    && SleepsBetweenCalls(trace)
  }

  /** A sleep at step `q` of a run that read its file sits between consecutive calls. */
  lemma SleepAt(get: Action, n: nat, after: seq<Action>, q: nat)
    requires get.GetObject?
    requires |after| <= 1 && (after != [] ==> after[0].PutObject?)
    requires q < 2 * n + 2 + |after|
    ensures var t := [get] + Backoff(n) + [InvokeModel(n)] + after;
      t[q].Sleep? ==>
        0 < q < |t| - 1 && t[q - 1].InvokeModel?
        && t[q].base == Pow2(t[q - 1].attempt)
        && t[q + 1] == InvokeModel(t[q - 1].attempt + 1)
  {
    var b := Backoff(n);
    var t := [get] + b + [InvokeModel(n)] + after;
    if q == 0 {
      assert t[q] == get;
    } else if q <= 2 * n {
      assert t[q] == b[q - 1];
      BackoffAt(n, q - 1);
      var k := (q - 1) / 2;
      if (q - 1) % 2 == 1 {
        assert q - 2 == 2 * k && q == 2 * k + 2;
        assert t[q - 1] == b[q - 2];
        BackoffAt(n, q - 2);
        if q < 2 * n {
          assert t[q + 1] == b[q];
          BackoffAt(n, q);
        } else {
          assert t[q + 1] == InvokeModel(n);
        }
      }
    } else if q == 2 * n + 1 {
      assert t[q] == InvokeModel(n);
    } else {
      assert t[q] == after[0];
    }
  }

  /** In the read, the retry loop's steps and an optional write, each sleep sits between consecutive calls. */
  lemma SleepsPlaced(get: Action, n: nat, after: seq<Action>)
    requires get.GetObject?
    requires |after| <= 1 && (after != [] ==> after[0].PutObject?)
    ensures SleepsBetweenCalls([get] + Backoff(n) + [InvokeModel(n)] + after)
  {
    var t := [get] + Backoff(n) + [InvokeModel(n)] + after;
    forall q | 0 <= q < |t|
      ensures t[q].Sleep? ==>
        0 < q < |t| - 1 && t[q - 1].InvokeModel?
        && t[q].base == Pow2(t[q - 1].attempt)
        && t[q + 1] == InvokeModel(t[q - 1].attempt + 1)
    {
      SleepAt(get, n, after, q);
    }
  }

  /** A sleep after the last call breaks the cadence, even when the calls and bases are right. */
  lemma SleepAfterLastCallIsNotCadence()
    ensures !RetryCadence([GetObject("b", "k"), InvokeModel(0), InvokeModel(1), Sleep(1)])
  {
    var t := [GetObject("b", "k"), InvokeModel(0), InvokeModel(1), Sleep(1)];
    assert t[3].Sleep?;
  }

  lemma CadenceOfAttempts(get: Action, n: nat, after: seq<Action>)
    requires get.GetObject? && n < MaxRetries
    requires |after| <= 1 && (after != [] ==> after[0].PutObject?)
    ensures RetryCadence([get] + Backoff(n) + [InvokeModel(n)] + after)
  {
    var calls := [get] + Backoff(n) + [InvokeModel(n)];
    StepsOfAttempts(get, n);
    CallsAppend(calls, after);
    if after != [] {
      assert after == [after[0]];
      StepsOfOne(after[0]);
    }
    assert Calls(after) == [] && Sleeps(after) == [];
    var t := calls + after;
    assert Calls(t) == Upto(n + 1) && Sleeps(t) == Doublings(n);
    UptoLength(n + 1);
    SleepsPlaced(get, n, after);
  }

  lemma RunCallsAndSleeps(bucket: string, event: Event, read: ReadOutcome, invoke: nat -> InvokeOutcome, write: WriteOutcome)
    ensures RetryCadence(Run(bucket, event, read, invoke, write).1)
  {
    var trace := Run(bucket, event, read, invoke, write).1;
    if EventKey(event).None? {
      assert trace == [];
    } else if !read.Body? {
      var get := GetObject(bucket, EventKey(event).value);
      assert trace == [get];
      StepsOfOne(get);
    } else {
      var n, after := RunTraceShape(bucket, event, read, invoke, write);
      CadenceOfAttempts(GetObject(bucket, EventKey(event).value), n, after);
    }
  }

  lemma {:induction false} UptoLength(k: nat)
    ensures |Upto(k)| == k
  {
    if k > 0 {
      UptoLength(k - 1);
    }
  }

  /** The sleeps of a run have strictly increasing backoff bases. */
  lemma RunSleepsGrow(bucket: string, event: Event, read: ReadOutcome, invoke: nat -> InvokeOutcome, write: WriteOutcome)
    ensures var sleeps := Sleeps(Run(bucket, event, read, invoke, write).1);
      forall q, q' :: 0 <= q < q' < |sleeps| ==> sleeps[q] < sleeps[q']
  {
    var trace := Run(bucket, event, read, invoke, write).1;
    RunCallsAndSleeps(bucket, event, read, invoke, write);
    var calls := Calls(trace);
    var k := if |calls| == 0 then 0 else |calls| - 1;
    assert Sleeps(trace) == Doublings(k);
    DoublingsIncrease(k);
  }

  /**
   * A run writes at most once, as its last step, right after a model call
   * that succeeded once every earlier call was throttled; it writes the terms
   * extracted from the text it read and that call's reply under the derived key.
   */
  lemma RunWritesOnlyAfterSuccess(bucket: string, event: Event, read: ReadOutcome, invoke: nat -> InvokeOutcome, write: WriteOutcome)
    ensures var trace := Run(bucket, event, read, invoke, write).1;
      forall q :: 0 <= q < |trace| && trace[q].PutObject? ==>
        q == |trace| - 1 && q >= 1 && trace[q - 1].InvokeModel?
        && invoke(trace[q - 1].attempt).Generated? && ThrottledBefore(invoke, trace[q - 1].attempt)
        && EventKey(event).Some? && read.Body?
        && trace[q] == PutObject(bucket, OutputKey(EventKey(event).value),
                                 Analysis(invoke(trace[q - 1].attempt).response, Terms.ExtractTerms(read.text)))
  {
    var trace := Run(bucket, event, read, invoke, write).1;
    if EventKey(event).None? {
      assert trace == [];
    } else if !read.Body? {
      assert trace == [GetObject(bucket, EventKey(event).value)];
    } else {
      var n, after := RunTraceShape(bucket, event, read, invoke, write);
      var front := [GetObject(bucket, EventKey(event).value)] + Backoff(n) + [InvokeModel(n)];
      NoWriteBeforeLastCall(GetObject(bucket, EventKey(event).value), n);
      assert trace == front + after;
      forall q | 0 <= q < |front| ensures !trace[q].PutObject? {
        assert trace[q] == front[q] && front[q] in front;
      }
      if after != [] {
        assert trace[|front|] == after[0] && trace[|front| - 1] == InvokeModel(n);
      }
    }
  }

  lemma NoWriteBeforeLastCall(get: Action, n: nat)
    requires !get.PutObject?
    ensures forall a :: a in [get] + Backoff(n) + [InvokeModel(n)] ==> !a.PutObject?
  {
    BackoffWritesNothing(n);
  }

  /**
   * Status 200 exactly when the key was found in the event, the file was
   * read, some call succeeded after only throttled ones, and the write succeeded.
   */
  lemma RunSucceedsIff(bucket: string, event: Event, read: ReadOutcome, invoke: nat -> InvokeOutcome, write: WriteOutcome)
    ensures Run(bucket, event, read, invoke, write).0 == Reply(200) <==>
      EventKey(event).Some? && read.Body? && write == Stored
      && exists n: nat :: n < MaxRetries && ThrottledBefore(invoke, n) && invoke(n).Generated?
  {
    if EventKey(event).Some? && read.Body? {
      var n := RetryShape(invoke);
      if exists m: nat :: m < MaxRetries && ThrottledBefore(invoke, m) && invoke(m).Generated? {
        var m: nat :| m < MaxRetries && ThrottledBefore(invoke, m) && invoke(m).Generated?;
        assert m == n;
      }
    }
  }

  /** The handler replies 404 exactly for a missing object, and otherwise with 200 or 500 unless the event has no key. */
  lemma RunStatusCodes(bucket: string, event: Event, read: ReadOutcome, invoke: nat -> InvokeOutcome, write: WriteOutcome)
    ensures var response := Run(bucket, event, read, invoke, write).0;
      (response == Uncaught <==> EventKey(event).None?)
      && (response == Reply(404) <==> EventKey(event).Some? && read.NoSuchKey?)
      && (response.Reply? ==> response.statusCode in {200, 404, 500})
  {
  }

  /** A failed read ends the run at once: no model call and no write. */
  lemma ReadFailureStopsRun(bucket: string, event: Event, read: ReadOutcome, invoke: nat -> InvokeOutcome, write: WriteOutcome)
    requires EventKey(event).Some? && !read.Body?
    ensures Run(bucket, event, read, invoke, write) ==
      (Reply(if read.NoSuchKey? then 404 else 500), [GetObject(bucket, EventKey(event).value)])
  {
  }

  /** The calls and sleeps of four throttled attempts, written out. */
  lemma BackoffFour()
    ensures Backoff(4) == [InvokeModel(0), Sleep(1), InvokeModel(1), Sleep(2), InvokeModel(2), Sleep(4), InvokeModel(3), Sleep(8)]
  {
    assert Pow2(3) == 8 && Pow2(2) == 4 && Pow2(1) == 2 && Pow2(0) == 1;
    assert Backoff(1) == [InvokeModel(0), Sleep(1)];
    assert Backoff(2) == [InvokeModel(0), Sleep(1), InvokeModel(1), Sleep(2)];
    assert Backoff(3) == [InvokeModel(0), Sleep(1), InvokeModel(1), Sleep(2), InvokeModel(2), Sleep(4)];
  }

  /** Throttled four times, then answered: five calls with sleeps of base 1, 2, 4 and 8 between them, then the write. */
  lemma ThrottledFourTimesThenGenerated(bucket: string, event: Event, text: string, invoke: nat -> InvokeOutcome, resp: ModelResponse)
    requires EventKey(event).Some?
    requires forall n: nat :: n < 4 ==> invoke(n) == Throttled
    requires invoke(4) == Generated(resp)
    ensures var fileKey := EventKey(event).value;
      Run(bucket, event, Body(text), invoke, Stored) ==
        (Reply(200),
         [GetObject(bucket, fileKey),
          InvokeModel(0), Sleep(1), InvokeModel(1), Sleep(2), InvokeModel(2), Sleep(4), InvokeModel(3), Sleep(8),
          InvokeModel(4),
          PutObject(bucket, OutputKey(fileKey), Analysis(resp, Terms.ExtractTerms(text)))])
  {
    assert ThrottledBefore(invoke, 4);
    RunSucceedsAt(bucket, event, Body(text), invoke, Stored, 4);
    BackoffFour();
    var fileKey := EventKey(event).value;
    var put := PutObject(bucket, OutputKey(fileKey), Analysis(resp, Terms.ExtractTerms(text)));
    var front := [GetObject(bucket, fileKey)] + Backoff(4);
    assert front == [GetObject(bucket, fileKey),
       InvokeModel(0), Sleep(1), InvokeModel(1), Sleep(2), InvokeModel(2), Sleep(4), InvokeModel(3), Sleep(8)];
    assert front + [InvokeModel(4), put] ==
      [GetObject(bucket, fileKey),
       InvokeModel(0), Sleep(1), InvokeModel(1), Sleep(2), InvokeModel(2), Sleep(4), InvokeModel(3), Sleep(8),
       InvokeModel(4), put];
  }

  /** Throttled on all five calls: 500 after exactly five calls and four sleeps, and nothing written. */
  lemma ThrottledEveryTime(bucket: string, event: Event, text: string, invoke: nat -> InvokeOutcome, write: WriteOutcome)
    requires EventKey(event).Some?
    requires forall n: nat :: n < MaxRetries ==> invoke(n) == Throttled
    ensures var (response, trace) := Run(bucket, event, Body(text), invoke, write);
      response == Reply(500)
      && trace == [GetObject(bucket, EventKey(event).value),
                   InvokeModel(0), Sleep(1), InvokeModel(1), Sleep(2), InvokeModel(2), Sleep(4), InvokeModel(3), Sleep(8),
                   InvokeModel(4)]
  {
    assert ThrottledBefore(invoke, 4);
    RunFailsAt(bucket, event, Body(text), invoke, write, 4);
    BackoffFour();
    var get := GetObject(bucket, EventKey(event).value);
    var front := [get] + Backoff(4);
    assert front == [get, InvokeModel(0), Sleep(1), InvokeModel(1), Sleep(2), InvokeModel(2), Sleep(4), InvokeModel(3), Sleep(8)];
  }

  /** A non-throttling error on the first call: 500 after that one call. */
  lemma FirstCallFails(bucket: string, event: Event, text: string, invoke: nat -> InvokeOutcome, write: WriteOutcome)
    requires EventKey(event).Some? && invoke(0) == InvokeError
    ensures Run(bucket, event, Body(text), invoke, write) ==
      (Reply(500), [GetObject(bucket, EventKey(event).value), InvokeModel(0)])
  {
    RunFailsAt(bucket, event, Body(text), invoke, write, 0);
    var get := [GetObject(bucket, EventKey(event).value)];
    assert get + Backoff(0) + [InvokeModel(0)] == [GetObject(bucket, EventKey(event).value), InvokeModel(0)];
  }
}
