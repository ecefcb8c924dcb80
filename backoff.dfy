/**
  The retry-with-backoff executor that wraps every call to the language model
  in the two resume pipelines. The wrapped call is modelled by its script of
  outcomes: `call(n)` is what the (n+1)-th invocation returns or raises.
  The sleep `base_delay * attempt + uniform(0, 1)` is modelled by its integer
  lower bound `base_delay * attempt`.
 */
module Backoff {
  import opened Text

  datatype Outcome<T> = Success(value: T) | Failure(message: string)

  /** How the executor ends: the call's value, the re-raised error, or the distinct "max retries" error. */
  datatype Retried<T> = Returned(value: T) | Raised(message: string) | RetriesExhausted(message: string)

  const DefaultMaxRetries: nat := 5
  const DefaultBaseDelay: nat := 2

  /** Transient-error markers of uploaded_resume_processing.py. */
  const UploadedTransientKeys: seq<string> := ["resource", "quota", "exhaust", "rate", "limit"]
  /** Transient-error markers of resume_processing.py: no "exhaust". */
  const BatchTransientKeys: seq<string> := ["resource", "quota", "rate", "limit"]

  const UploadedExhaustedMessage: string := "\U{274C} Max retries reached \U{2014} still failing."
  const BatchExhaustedMessage: string := "Max retries reached"

  /** An error is transient when its lower-cased message contains one of the markers. */
  predicate IsTransient(message: string, keys: seq<string>) {
    exists i :: 0 <= i < |keys| && Contains(Lower(message), keys[i])
  }

  /**
    `retry_with_backoff(func, max_retries, base_delay)`: calls `func` for
    attempts 1..max_retries, returns the first value, re-raises the first
    non-transient error at once, sleeps after every transient one, and raises
    the distinct exhausted error once all attempts failed transiently.
    `waits[j]` is the lower bound of the sleep after attempt j+1.
   */
  method RetryWithBackoff<T>(call: nat -> Outcome<T>, maxRetries: nat, baseDelay: nat,
                             keys: seq<string>, exhaustedMessage: string)
    returns (r: Retried<T>, calls: nat, waits: seq<nat>)
    ensures calls <= maxRetries
    ensures forall j :: 0 <= j < calls - 1 ==> call(j).Failure? && IsTransient(call(j).message, keys)
    ensures r.Returned? ==> calls >= 1 && call(calls - 1) == Success(r.value)
    ensures r.Raised? ==> calls >= 1 && call(calls - 1) == Failure(r.message) && !IsTransient(r.message, keys)
    ensures r.RetriesExhausted? ==>
              calls == maxRetries && r.message == exhaustedMessage &&
              (calls >= 1 ==> call(calls - 1).Failure? && IsTransient(call(calls - 1).message, keys))
    ensures |waits| == (if r.RetriesExhausted? then calls else calls - 1)
    ensures forall j :: 0 <= j < |waits| ==> waits[j] == baseDelay * (j + 1)
  {
    calls, waits := 0, [];
    var attempt := 1;
    while attempt <= maxRetries
      invariant 1 <= attempt <= maxRetries + 1
      invariant calls == attempt - 1 && |waits| == calls
      invariant forall j :: 0 <= j < calls ==> call(j).Failure? && IsTransient(call(j).message, keys)
      invariant forall j :: 0 <= j < |waits| ==> waits[j] == baseDelay * (j + 1)
    {
      calls := attempt;
      match call(attempt - 1)
      case Success(v) =>
        r := Returned(v);
        return;
      case Failure(m) =>
        if IsTransient(m, keys) {
          waits := waits + [baseDelay * attempt];
          attempt := attempt + 1;
        } else {
          r := Raised(m);
          return;
        }
    }
    r := RetriesExhausted(exhaustedMessage);
  }

  /** Every error that resume_processing.py retries is also retried by uploaded_resume_processing.py. */
  lemma {:induction false} BatchTransientIsUploadedTransient(message: string)
    ensures IsTransient(message, BatchTransientKeys) ==> IsTransient(message, UploadedTransientKeys)
  {
    if IsTransient(message, BatchTransientKeys) {
      var i :| 0 <= i < |BatchTransientKeys| && Contains(Lower(message), BatchTransientKeys[i]);
      var j := [0, 1, 3, 4][i];
      assert UploadedTransientKeys[j] == BatchTransientKeys[i];
    }
  }

  /**
    The converse fails: an error reading "Exhausted" is retried by the
    uploaded pipeline and re-raised at once by the batch pipeline.
   */
  lemma ExhaustedOnlyUploadedTransient()
    ensures IsTransient("Exhausted", UploadedTransientKeys)
    ensures !IsTransient("Exhausted", BatchTransientKeys)
  {
    var m := Lower("Exhausted");
    assert m == "exhausted";
    assert m[0..7] == "exhaust";
    ContainsAt(m, "exhaust", 0);
    assert Contains(m, UploadedTransientKeys[2]);
    forall i | 0 <= i < |BatchTransientKeys|
      ensures !Contains(m, BatchTransientKeys[i])
    {
      MissingCharExcludes(m, BatchTransientKeys[i], [0, 0, 0, 0][i]);
    }
  }

  /** A rate-limit error is transient for both pipelines. */
  lemma RateLimitIsTransient()
    ensures IsTransient("Rate limit exceeded", UploadedTransientKeys)
    ensures IsTransient("Rate limit exceeded", BatchTransientKeys)
  {
    var r := "Rate limit exceeded";
    assert r[5..10] == "limit";
    LowerKeepsOccurrence(r, "limit", 5);
    assert UploadedTransientKeys[4] == "limit" && BatchTransientKeys[3] == "limit";
  }

  /** A permission error is transient for neither pipeline. */
  lemma PermissionIsFatal()
    ensures !IsTransient("Permission denied", UploadedTransientKeys)
    ensures !IsTransient("Permission denied", BatchTransientKeys)
  {
    var n := Lower("Permission denied");
    assert n == "permission denied";
    forall i | 0 <= i < |UploadedTransientKeys|
      ensures !Contains(n, UploadedTransientKeys[i])
    {
      MissingCharExcludes(n, UploadedTransientKeys[i], [6, 0, 1, 1, 0][i]);
    }
    BatchTransientIsUploadedTransient("Permission denied");
  }

  /**
    The markers are matched as bare substrings, so an error whose message
    merely contains "generate" (which holds "rate") is treated as transient.
   */
  lemma GenerateCountsAsRate()
    ensures IsTransient("Failed to generate content", BatchTransientKeys)
    ensures IsTransient("Failed to generate content", UploadedTransientKeys)
  {
    var s := "Failed to generate content";
    assert s[14..18] == "rate";
    LowerKeepsOccurrence(s, "rate", 14);
    assert UploadedTransientKeys[3] == "rate" && BatchTransientKeys[2] == "rate";
  }
}
