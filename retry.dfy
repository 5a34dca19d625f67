/** `call_openai_with_retries` (generate_and_deploy.py lines 30-69): one
    remote call retried with exponential backoff and jitter.

    The remote service is a function from the index of a call (0 for the
    first `requests.post` of this invocation) to what that call ends in, and
    `random.uniform(0, 1)` is a function from the index of a draw to the
    value drawn. */
module Retry {
  import PyText

  /** What one pass through the `try` block ends in. */
  datatype Outcome =
      /** The response parsed and `data["choices"][0]["message"]["content"]` is `content`. */
    | Success(content: string)
      /** `raise_for_status()` raised `requests.exceptions.HTTPError`. */
    | HttpError(status: int)
      /** Any other `requests.exceptions.RequestException`: connection error, timeout. */
    | NetworkError
      /** Any other `Exception` subclass, such as a `KeyError`. */
    | OtherError

  /** The statuses tested at line 52. */
  const RetryableStatuses: set<int> := {429, 500, 502, 503, 504}

  /** The default of `max_retries`, which `generate_blog` does not override. */
  const DefaultMaxRetries := 5

  /** The failures that cost one attempt and one backoff instead of ending the call. */
  predicate IsRetryable(o: Outcome) {
    (o.HttpError? && o.status in RetryableStatuses) || o.NetworkError?
  }

  /** What the function raises when it does not return. */
  datatype Failure =
      /** The `HTTPError` with a non-retryable status, re-raised at line 60. */
    | FatalStatus(status: int)
      /** An exception no `except` clause catches, propagated unchanged. */
    | Raised
      /** `RuntimeError(f"OpenAI calls failed after {max_retries} attempts.")`, line 69. */
    | Exhausted(maxRetries: int)

  datatype CallResult = Ok(text: string) | Err(failure: Failure)

  /** One invocation as seen from outside: its result, how many remote calls
      it made, and the seconds it slept, in order. */
  datatype Run = Run(result: CallResult, calls: nat, sleeps: seq<real>)

  function Pow2(k: nat): (r: nat)
    ensures r >= 1
  {
    if k == 0 then 1 else 2 * Pow2(k - 1)
  }

  /** `(2 ** attempt) + random.uniform(0, 1)` with the value drawn given. */
  function Backoff(attempt: nat, draw: real): real {
    Pow2(attempt) as real + draw
  }

  function Max0(n: int): nat {
    if n < 0 then 0 else n
  }

  /** What a call that is not retried ends the invocation with. */
  function Settle(o: Outcome): CallResult
    requires !IsRetryable(o)
  {
    match o
    case Success(content) => Ok(PyText.Strip(content, PyText.Space))
    case HttpError(status) => Err(FatalStatus(status))
    case OtherError => Err(Raised)
  }

  /** The invocation from the top of the `while` loop once `attempt` retries
      have been spent; call number `attempt` is the next one made. */
  function Exec(respond: nat -> Outcome, jitter: nat -> real, maxRetries: int, attempt: nat): (r: Run)
    ensures |r.sleeps| <= r.calls
    decreases maxRetries - attempt
  {
    if attempt >= maxRetries then Run(Err(Exhausted(maxRetries)), 0, [])
    else if IsRetryable(respond(attempt)) then
      var rest := Exec(respond, jitter, maxRetries, attempt + 1);
      Run(rest.result, rest.calls + 1, [Backoff(attempt + 1, jitter(attempt))] + rest.sleeps)
    else Run(Settle(respond(attempt)), 1, [])
  }

  /** A run that follows `calls` calls which slept `sleeps`. */
  function After(calls: nat, sleeps: seq<real>, r: Run): Run {
    Run(r.result, calls + r.calls, sleeps + r.sleeps)
  }

  /** One retry: the call at index `attempt` failed retryably, so the run
      continues with one more call counted and one more sleep recorded. */
  lemma RetryStep(respond: nat -> Outcome, jitter: nat -> real, maxRetries: int, attempt: nat, sleeps: seq<real>)
    requires attempt < maxRetries && IsRetryable(respond(attempt))
    ensures After(attempt, sleeps, Exec(respond, jitter, maxRetries, attempt))
            == After(attempt + 1, sleeps + [Backoff(attempt + 1, jitter(attempt))],
                     Exec(respond, jitter, maxRetries, attempt + 1))
  {
    var rest := Exec(respond, jitter, maxRetries, attempt + 1);
    var b := Backoff(attempt + 1, jitter(attempt));
    assert sleeps + ([b] + rest.sleeps) == (sleeps + [b]) + rest.sleeps;
  }

  /** The call at index `attempt` is not retried: the run ends with it. */
  lemma SettleStep(respond: nat -> Outcome, jitter: nat -> real, maxRetries: int, attempt: nat, sleeps: seq<real>)
    requires attempt < maxRetries && !IsRetryable(respond(attempt))
    ensures After(attempt, sleeps, Exec(respond, jitter, maxRetries, attempt))
            == Run(Settle(respond(attempt)), attempt + 1, sleeps)
  {
    assert sleeps + [] == sleeps;
  }

  /** The `try` block and its `except` clauses (lines 42-66) for one call:
      either the call is retried, or it ends the invocation with `result`. */
  method Classify(outcome: Outcome) returns (retry: bool, result: CallResult)
    ensures retry == IsRetryable(outcome)
    ensures !retry ==> result == Settle(outcome)
  {
    retry, result := false, Err(Raised);
    match outcome {
      case Success(content) =>
        result := Ok(PyText.Strip(content, PyText.Space));
      case HttpError(status) =>
        if status in RetryableStatuses {
          retry := true;
        } else {
          result := Err(FatalStatus(status));
        }
      case NetworkError =>
        retry := true;
      case OtherError =>
        result := Err(Raised);
    }
  }

  /** The loop of lines 31-69, proved to do what `Exec` describes. */
  method CallWithRetries(respond: nat -> Outcome, jitter: nat -> real, maxRetries: int)
    returns (result: CallResult, calls: nat, sleeps: seq<real>)
    ensures Run(result, calls, sleeps) == Exec(respond, jitter, maxRetries, 0)
  {
    var attempt: nat := 0;
    calls, sleeps := 0, [];
    while attempt < maxRetries
      invariant calls == attempt == |sleeps|
      invariant Exec(respond, jitter, maxRetries, 0)
                == After(attempt, sleeps, Exec(respond, jitter, maxRetries, attempt))
      decreases maxRetries - attempt
    {
      var retry, settled := Classify(respond(attempt));
      calls := calls + 1;
      if !retry {
        SettleStep(respond, jitter, maxRetries, attempt, sleeps);
        return settled, calls, sleeps;
      }
      RetryStep(respond, jitter, maxRetries, attempt, sleeps);
      attempt := attempt + 1;
      sleeps := sleeps + [Backoff(attempt, jitter(attempt - 1))];
    }
    result := Err(Exhausted(maxRetries));
    assert sleeps + [] == sleeps;
  }

  /** Counting from call `attempt`: at most the remaining budget of calls is
      made; a run that gives up has slept after every call it made, and any
      other run after every call but its last. */
  lemma {:induction false} ExecCounts(respond: nat -> Outcome, jitter: nat -> real, maxRetries: int, attempt: nat)
    requires attempt <= Max0(maxRetries)
    ensures var r := Exec(respond, jitter, maxRetries, attempt);
            && r.calls <= Max0(maxRetries) - attempt
            && (attempt < maxRetries ==> r.calls >= 1)
            && (r.result == Err(Exhausted(maxRetries)) ==> r.calls == |r.sleeps| == Max0(maxRetries) - attempt)
            && (r.result != Err(Exhausted(maxRetries)) ==> r.calls == |r.sleeps| + 1)
    decreases maxRetries - attempt
  {
    if attempt < maxRetries && IsRetryable(respond(attempt)) {
      ExecCounts(respond, jitter, maxRetries, attempt + 1);
    }
  }

  /** The whole invocation never makes more than `max_retries` calls (none
      at all when `max_retries <= 0`, at least one otherwise); when it gives up it has slept once per
      call, otherwise once per call but the last. */
  lemma CallCounts(respond: nat -> Outcome, jitter: nat -> real, maxRetries: int)
    ensures var r := Exec(respond, jitter, maxRetries, 0);
            && r.calls <= Max0(maxRetries)
            && (maxRetries > 0 ==> r.calls >= 1)
            && (r.result == Err(Exhausted(maxRetries)) ==> r.calls == |r.sleeps| == Max0(maxRetries))
            && (r.result != Err(Exhausted(maxRetries)) ==> r.calls == |r.sleeps| + 1)
  {
    ExecCounts(respond, jitter, maxRetries, 0);
  }

  lemma {:induction false} ExhaustsFrom(respond: nat -> Outcome, jitter: nat -> real, maxRetries: int, attempt: nat)
    requires attempt <= Max0(maxRetries)
    requires forall i :: attempt <= i < maxRetries ==> IsRetryable(respond(i))
    ensures Exec(respond, jitter, maxRetries, attempt).result == Err(Exhausted(maxRetries))
    decreases maxRetries - attempt
  {
    if attempt < maxRetries {
      ExhaustsFrom(respond, jitter, maxRetries, attempt + 1);
    }
  }

  /** When every call fails retryably the invocation makes exactly
      `max_retries` calls, sleeps after each of them, and raises the
      "failed after N attempts" error; with `max_retries <= 0` it makes no
      call and raises at once. */
  lemma AllRetryableExhausts(respond: nat -> Outcome, jitter: nat -> real, maxRetries: int)
    requires forall i :: 0 <= i < maxRetries ==> IsRetryable(respond(i))
    ensures var r := Exec(respond, jitter, maxRetries, 0);
            && r.result == Err(Exhausted(maxRetries))
            && r.calls == |r.sleeps| == Max0(maxRetries)
  {
    ExhaustsFrom(respond, jitter, maxRetries, 0);
    ExecCounts(respond, jitter, maxRetries, 0);
  }

  lemma {:induction false} SettlesFrom(respond: nat -> Outcome, jitter: nat -> real, maxRetries: int, attempt: nat, j: nat)
    requires attempt <= j < maxRetries
    requires forall i :: attempt <= i < j ==> IsRetryable(respond(i))
    requires !IsRetryable(respond(j))
    ensures Exec(respond, jitter, maxRetries, attempt).result == Settle(respond(j))
    decreases j - attempt
  {
    if attempt < j {
      SettlesFrom(respond, jitter, maxRetries, attempt + 1, j);
    }
  }

  lemma {:induction false} SleepsBeforeSettling(respond: nat -> Outcome, jitter: nat -> real, maxRetries: int, attempt: nat, j: nat)
    requires attempt <= j < maxRetries
    requires forall i :: attempt <= i < j ==> IsRetryable(respond(i))
    requires !IsRetryable(respond(j))
    ensures |Exec(respond, jitter, maxRetries, attempt).sleeps| == j - attempt
    decreases j - attempt
  {
    if attempt < j {
      SleepsBeforeSettling(respond, jitter, maxRetries, attempt + 1, j);
    }
  }

  /** The first call that does not fail retryably ends the invocation, if it
      comes within the budget: a success returns its content stripped of
      white space, a non-retryable status re-raises that error, any other
      exception propagates. No later call is made, and no sleep follows that
      call. */
  lemma SettlesAt(respond: nat -> Outcome, jitter: nat -> real, maxRetries: int, j: nat)
    requires j < maxRetries
    requires forall i :: 0 <= i < j ==> IsRetryable(respond(i))
    requires !IsRetryable(respond(j))
    ensures var r := Exec(respond, jitter, maxRetries, 0);
            && r.result == Settle(respond(j))
            && r.calls == j + 1 && |r.sleeps| == j
  {
    SettlesFrom(respond, jitter, maxRetries, 0, j);
    SleepsBeforeSettling(respond, jitter, maxRetries, 0, j);
    ExecCounts(respond, jitter, maxRetries, 0);
  }

  /** Call `j` is the first call from `from` on that is not retried, and it
      is within the budget. */
  ghost predicate FirstSettledAt(respond: nat -> Outcome, maxRetries: int, from: nat, j: nat) {
    from <= j < maxRetries && !IsRetryable(respond(j))
    && forall i :: from <= i < j ==> IsRetryable(respond(i))
  }

  lemma {:induction false} SettledWithin(respond: nat -> Outcome, jitter: nat -> real, maxRetries: int, attempt: nat)
    requires Exec(respond, jitter, maxRetries, attempt).result != Err(Exhausted(maxRetries))
    ensures exists j :: FirstSettledAt(respond, maxRetries, attempt, j)
                        && Exec(respond, jitter, maxRetries, attempt).result == Settle(respond(j))
    decreases maxRetries - attempt
  {
    if IsRetryable(respond(attempt)) {
      SettledWithin(respond, jitter, maxRetries, attempt + 1);
      var j :| FirstSettledAt(respond, maxRetries, attempt + 1, j)
               && Exec(respond, jitter, maxRetries, attempt + 1).result == Settle(respond(j));
      assert FirstSettledAt(respond, maxRetries, attempt, j);
    } else {
      assert FirstSettledAt(respond, maxRetries, attempt, attempt);
    }
  }

  /** A call within the budget that succeeds after only retryable failures. */
  ghost predicate SucceedsWithin(respond: nat -> Outcome, maxRetries: int) {
    exists j :: 0 <= j < maxRetries && respond(j).Success? && forall i :: 0 <= i < j ==> IsRetryable(respond(i))
  }

  lemma SucceedsOnlyIf(respond: nat -> Outcome, jitter: nat -> real, maxRetries: int)
    requires Exec(respond, jitter, maxRetries, 0).result.Ok?
    ensures SucceedsWithin(respond, maxRetries)
  {
    SettledWithin(respond, jitter, maxRetries, 0);
    var j :| FirstSettledAt(respond, maxRetries, 0, j)
             && Exec(respond, jitter, maxRetries, 0).result == Settle(respond(j));
    assert respond(j).Success?;
  }

  lemma SucceedsIf(respond: nat -> Outcome, jitter: nat -> real, maxRetries: int)
    requires SucceedsWithin(respond, maxRetries)
    ensures Exec(respond, jitter, maxRetries, 0).result.Ok?
  {
    var j :| 0 <= j < maxRetries && respond(j).Success? && forall i :: 0 <= i < j ==> IsRetryable(respond(i));
    SettlesFrom(respond, jitter, maxRetries, 0, j);
  }

  /** The invocation returns content exactly when some call within the
      budget succeeds and every call before it failed retryably. */
  lemma SucceedsIff(respond: nat -> Outcome, jitter: nat -> real, maxRetries: int)
    ensures Exec(respond, jitter, maxRetries, 0).result.Ok?
            <==> exists j :: 0 <= j < maxRetries && respond(j).Success?
                             && forall i :: 0 <= i < j ==> IsRetryable(respond(i))
  {
    if Exec(respond, jitter, maxRetries, 0).result.Ok? {
      SucceedsOnlyIf(respond, jitter, maxRetries);
    }
    if SucceedsWithin(respond, maxRetries) {
      SucceedsIf(respond, jitter, maxRetries);
    }
  }

  /** Which retryable failure a call ends in makes no difference: a
      transport error and a 429 or 5xx status are handled alike. */
  lemma {:induction false} RetryablesInterchangeable(respond: nat -> Outcome, respond': nat -> Outcome,
                                                     jitter: nat -> real, maxRetries: int, attempt: nat)
    requires forall i :: respond(i) == respond'(i) || (IsRetryable(respond(i)) && IsRetryable(respond'(i)))
    ensures Exec(respond, jitter, maxRetries, attempt) == Exec(respond', jitter, maxRetries, attempt)
    decreases maxRetries - attempt
  {
    if attempt < maxRetries && IsRetryable(respond(attempt)) {
      RetryablesInterchangeable(respond, respond', jitter, maxRetries, attempt + 1);
    }
  }

  lemma {:induction false} SleepsFrom(respond: nat -> Outcome, jitter: nat -> real, maxRetries: int, attempt: nat)
    ensures forall k :: 0 <= k < |Exec(respond, jitter, maxRetries, attempt).sleeps| ==>
              Exec(respond, jitter, maxRetries, attempt).sleeps[k] == Backoff(attempt + k + 1, jitter(attempt + k))
    decreases maxRetries - attempt
  {
    if attempt < maxRetries && IsRetryable(respond(attempt)) {
      SleepsFrom(respond, jitter, maxRetries, attempt + 1);
      var rest := Exec(respond, jitter, maxRetries, attempt + 1).sleeps;
      var all := Exec(respond, jitter, maxRetries, attempt).sleeps;
      assert all == [Backoff(attempt + 1, jitter(attempt))] + rest;
      forall k | 1 <= k < |all| ensures all[k] == Backoff(attempt + k + 1, jitter(attempt + k)) {
        assert all[k] == rest[k - 1];
        assert rest[k - 1] == Backoff(attempt + 1 + (k - 1) + 1, jitter(attempt + 1 + (k - 1)));
        assert attempt + 1 + (k - 1) == attempt + k;
      }
    }
  }

  /** The k-th sleep (counting from 0) is `2 ** (k + 1)` plus the k-th value drawn. */
  lemma SleepsAreBackoffs(respond: nat -> Outcome, jitter: nat -> real, maxRetries: int)
    ensures var r := Exec(respond, jitter, maxRetries, 0);
            forall k :: 0 <= k < |r.sleeps| ==> r.sleeps[k] == Backoff(k + 1, jitter(k))
  {
    SleepsFrom(respond, jitter, maxRetries, 0);
  }

  lemma {:induction false} Pow2Gap(k: nat, l: nat)
    requires 1 <= k < l
    ensures Pow2(k) + 1 < Pow2(l)
    decreases l
  {
    if l > k + 1 {
      Pow2Gap(k, l - 1);
    } else {
      assert Pow2(k) >= 2 by { if k > 1 { Pow2Gap(1, k); } }
    }
  }

  /** With every draw in [0, 1], the k-th sleep (counting from 1) lies in
      [2^k, 2^k + 1], so the sleeps grow strictly from one retry to the next. */
  lemma BackoffBounds(respond: nat -> Outcome, jitter: nat -> real, maxRetries: int)
    requires forall d :: 0.0 <= jitter(d) <= 1.0
    ensures var r := Exec(respond, jitter, maxRetries, 0);
            && (forall k :: 0 <= k < |r.sleeps| ==>
                  Pow2(k + 1) as real <= r.sleeps[k] <= Pow2(k + 1) as real + 1.0)
            && (forall k, l :: 0 <= k < l < |r.sleeps| ==> r.sleeps[k] < r.sleeps[l])
  {
    var r := Exec(respond, jitter, maxRetries, 0);
    SleepsAreBackoffs(respond, jitter, maxRetries);
    forall k, l | 0 <= k < l < |r.sleeps| ensures r.sleeps[k] < r.sleeps[l] {
      Pow2Gap(k + 1, l + 1);
    }
  }
}
