/**
  Retrying a download with exponential back-off (sidebar.js retryDownload).
  The download function is replaced by the sequence of outcomes its
  successive calls produce; the waits between calls are kept in a ghost list.
*/
module Retry {
  import opened Wrappers

  /** A value the download function resolved to: whether it fails the
      `result && result.success !== false` test, and its `error` field (""
      when missing or empty). A falsy primitive such as `0` or `false` is
      `Reply(true, "")`. */
  datatype Reply = Reply(successFalse: bool, error: string)

  /** What a call threw. */
  datatype Thrown =
    | ThrownValue(message: string)  // a truthy value; for an `Error`, its message
    | ThrownFalsy                   // `0`, `""`, `false` or `NaN`
    | ThrownNullish                 // `null` or `undefined`

  /** One call of the download function. */
  datatype Outcome =
    | Resolved(reply: Option<Reply>)  // None: resolved to undefined or null
    | Rejected(thrown: Thrown)

  /** The error a failed call leaves in `lastError`. `ResultMissing` is the
      TypeError raised by reading `error` from a missing result. */
  datatype Fault = DownloadError(message: string) | ResultMissing

  /** How `retryDownload` ends. `Aborted` is the TypeError the `catch`
      block itself raises when it reads `message` of a thrown `null` or
      `undefined`: it escapes the loop at once. */
  datatype Retried =
    | Succeeded(reply: Reply, calls: nat)
    | Failed(error: Fault, calls: nat)
    | Aborted(calls: nat)

  /** A result that is present and whose `success` is not `false`. */
  predicate Succeeds(o: Outcome) {
    o.Resolved? && o.reply.Some? && !o.reply.value.successFalse
  }

  /** A call whose failure ends the loop: it threw `null` or `undefined`. */
  predicate Aborts(o: Outcome) {
    o.Rejected? && o.thrown.ThrownNullish?
  }

  /** A call after which no further call is made. */
  predicate Stops(o: Outcome) {
    Succeeds(o) || Aborts(o)
  }

  /** The value of `lastError` after a failed call (None: falsy). */
  function FaultOf(o: Outcome): Option<Fault>
    requires !Stops(o)
  {
    match o
    case Resolved(None) => Some(ResultMissing)
    case Resolved(Some(r)) => Some(DownloadError(if r.error != "" then r.error else "Download returned failure"))
    case Rejected(ThrownValue(m)) => Some(DownloadError(m))
    case Rejected(ThrownFalsy) => None
  }

  const AllFailed: Fault := DownloadError("Download failed after all retries")

  /** The outcome of attempts `attempt`..`maxRetries`, given the error of
      the attempts before them. */
  function RetryFrom(outcomes: seq<Outcome>, maxRetries: int, attempt: nat, lastError: Option<Fault>): Retried
    requires 1 <= attempt && maxRetries <= |outcomes|
    decreases if attempt <= maxRetries then maxRetries - attempt + 1 else 0
  {
    if attempt > maxRetries then Failed(lastError.GetOr(AllFailed), attempt - 1)
    else if Succeeds(outcomes[attempt - 1]) then Succeeded(outcomes[attempt - 1].reply.value, attempt)
    else if Aborts(outcomes[attempt - 1]) then Aborted(attempt)
    else RetryFrom(outcomes, maxRetries, attempt + 1, FaultOf(outcomes[attempt - 1]))
  }

  function RetryOutcome(outcomes: seq<Outcome>, maxRetries: int): Retried
    requires maxRetries <= |outcomes|
  {
    RetryFrom(outcomes, maxRetries, 1, None)
  }

  function Max0(n: int): nat { if n < 0 then 0 else n }

  /** The first call that succeeds is returned and no call is made after
      it; a missing result, `success: false` and a thrown error all count
      as failures, except that a thrown `null` or `undefined` ends the loop
      at once; after `maxRetries` failures the last call's error is
      thrown, or the generic one when it was falsy or no call was made. */
  lemma RetryCharacterized(outcomes: seq<Outcome>, maxRetries: int)
    requires maxRetries <= |outcomes|
    ensures var r := RetryOutcome(outcomes, maxRetries);
            && r.calls <= Max0(maxRetries)
            && (r.Succeeded? ==>
                  && 1 <= r.calls && Succeeds(outcomes[r.calls - 1])
                  && r.reply == outcomes[r.calls - 1].reply.value
                  && forall j :: 0 <= j < r.calls - 1 ==> !Stops(outcomes[j]))
            && (r.Aborted? ==>
                  && 1 <= r.calls && Aborts(outcomes[r.calls - 1])
                  && forall j :: 0 <= j < r.calls - 1 ==> !Stops(outcomes[j]))
            && (r.Failed? ==>
                  && r.calls == Max0(maxRetries)
                  && (forall j :: 0 <= j < r.calls ==> !Stops(outcomes[j]))
                  && r.error == (if maxRetries >= 1 then FaultOf(outcomes[maxRetries - 1]).GetOr(AllFailed) else AllFailed))
  {
    RetryFromCharacterized(outcomes, maxRetries, 1, None);
  }

  lemma {:induction false} RetryFromCharacterized(outcomes: seq<Outcome>, maxRetries: int, attempt: nat, lastError: Option<Fault>)
    requires 1 <= attempt && maxRetries <= |outcomes|
    requires attempt == 1 ==> lastError == None
    requires attempt > 1 ==> attempt - 1 <= maxRetries && !Stops(outcomes[attempt - 2]) && lastError == FaultOf(outcomes[attempt - 2])
    decreases if attempt <= maxRetries then maxRetries - attempt + 1 else 0
    ensures var r := RetryFrom(outcomes, maxRetries, attempt, lastError);
            && attempt - 1 <= r.calls <= Max0(maxRetries)
            && (r.Succeeded? ==>
                  && 1 <= r.calls && Succeeds(outcomes[r.calls - 1])
                  && r.reply == outcomes[r.calls - 1].reply.value
                  && forall j :: attempt - 1 <= j < r.calls - 1 ==> !Stops(outcomes[j]))
            && (r.Aborted? ==>
                  && attempt <= r.calls && Aborts(outcomes[r.calls - 1])
                  && forall j :: attempt - 1 <= j < r.calls - 1 ==> !Stops(outcomes[j]))
            && (r.Failed? ==>
                  && r.calls == Max0(maxRetries)
                  && (forall j :: attempt - 1 <= j < r.calls ==> !Stops(outcomes[j]))
                  && r.error == (if maxRetries >= 1 then FaultOf(outcomes[maxRetries - 1]).GetOr(AllFailed) else AllFailed))
  {
    if attempt <= maxRetries && !Stops(outcomes[attempt - 1]) {
      RetryFromCharacterized(outcomes, maxRetries, attempt + 1, FaultOf(outcomes[attempt - 1]));
    }
  }

  function Pow2(n: nat): (r: nat)
    ensures r >= 1
  {
    if n == 0 then 1 else 2 * Pow2(n - 1)
  }

  /** The wait in milliseconds after failed attempt `k` (1-based). */
  function Delay(k: nat): nat
    requires k >= 1
  {
    var d := Pow2(k - 1) * 1000;
    if d < 5000 then d else 5000
  }

  /** The waits are 1 s, 2 s, 4 s and then 5 s for every later retry:
      never more than 5 s and never shorter than the one before. */
  lemma {:induction false} DelaySchedule(j: nat, k: nat)
    requires 1 <= j <= k
    ensures Delay(k) <= 5000
    ensures Delay(j) <= Delay(k)
    ensures k >= 4 ==> Delay(k) == 5000
    ensures Delay(1) == 1000 && Delay(2) == 2000 && Delay(3) == 4000
  {
    Pow2Monotone(j - 1, k - 1);
    if k >= 4 {
      Pow2Monotone(3, k - 1);
    }
  }

  lemma {:induction false} Pow2Monotone(m: nat, n: nat)
    requires m <= n
    ensures Pow2(m) <= Pow2(n)
    decreases n
  {
    if m < n {
      Pow2Monotone(m, n - 1);
    }
  }

  /** The waits made before the next attempt after calls 1..`n`: one after
      every call but the final permitted one. */
  ghost function Waits(n: nat, maxRetries: int): seq<nat>
  {
    if n == 0 then [] else Waits(n - 1, maxRetries) + (if n < maxRetries then [Delay(n)] else [])
  }

  lemma {:induction false} WaitsShape(n: nat, maxRetries: int)
    requires n <= Max0(maxRetries)
    ensures |Waits(n, maxRetries)| == (if n == 0 then 0 else if n < maxRetries then n else n - 1)
    ensures forall j :: 0 <= j < |Waits(n, maxRetries)| ==> Waits(n, maxRetries)[j] == Delay(j + 1)
  {
    if n > 0 {
      WaitsShape(n - 1, maxRetries);
    }
  }

  /** The retry loop: at most `maxRetries` calls, a wait after each failed
      call except the last permitted one and one that aborts. */
  method RetryDownload(outcomes: seq<Outcome>, maxRetries: int) returns (r: Retried, ghost waits: seq<nat>)
    requires maxRetries <= |outcomes|
    ensures r == RetryOutcome(outcomes, maxRetries)
    ensures (r.Succeeded? || r.Aborted?) ==> r.calls >= 1 && waits == Waits(r.calls - 1, maxRetries)
    ensures r.Failed? ==> waits == Waits(r.calls, maxRetries)
  {
    var lastError: Option<Fault> := None;
    var attempt := 1;
    waits := [];
    while attempt <= maxRetries
      invariant 1 <= attempt && (attempt - 1 <= maxRetries || attempt == 1)
      invariant RetryFrom(outcomes, maxRetries, attempt, lastError) == RetryOutcome(outcomes, maxRetries)
      invariant waits == Waits(attempt - 1, maxRetries)
      decreases maxRetries - attempt + 1
    {
      var o := outcomes[attempt - 1];
      if Succeeds(o) {
        r := Succeeded(o.reply.value, attempt);
        return;
      }
      if Aborts(o) {
        r := Aborted(attempt);
        return;
      }
      lastError := FaultOf(o);
      if attempt < maxRetries {
        waits := waits + [Delay(attempt)];
      }
      attempt := attempt + 1;
    }
    r := Failed(lastError.GetOr(AllFailed), attempt - 1);
  }
}
