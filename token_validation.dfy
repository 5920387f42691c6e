/**
 * Token validation against the Quip API, as SecureTokenManager._validate_token does it: a token
 * shorter than 30 characters is refused without a call; otherwise up to `max_retries` calls are
 * made, each failure is classified by the keywords in its lower-cased message, transient failures
 * are retried after a wait of (attempt + 1) * 2 seconds, and any other failure ends the
 * validation at once.
 *
 * The remote calls are a stream of outcomes, one per attempt, read from a position; past the end
 * of the stream every call raises an exception with an empty message. The waits are returned as
 * a log instead of being slept.
 */
module TokenValidation {
  import opened Wrappers
  import opened Strings

  /** The shortest token worth a call. */
  const MinTokenLength := 30

  /** What one get_authenticated_user() call gives: the user object (a missing one is empty), or an exception's message. */
  datatype Outcome = Answer(info: map<string, string>) | Raised(message: string)

  /** The outcome of the call at position k of the stream. */
  function OutcomeAt(outcomes: seq<Outcome>, k: nat): Outcome {
    if k < |outcomes| then outcomes[k] else Raised("")
  }

  const TransientWords: seq<string> :=
    ["timeout", "connection", "network", "temporary", "service unavailable", "502", "503", "504"]
  const AuthWords: seq<string> := ["unauthorized", "401", "forbidden", "403", "invalid", "expired"]

  datatype FailureKind = Transient | Authentication | Unexpected

  /** How an exception is classified: the transient keywords are looked for first. */
  function Classify(message: string): (k: FailureKind)
  {
    var m := Lower(message);
    if AnyContained(TransientWords, m) then Transient
    else if AnyContained(AuthWords, m) then Authentication
    else Unexpected
  }

  /**
   * A failure is transient exactly when its lower-cased message holds a transient keyword, and
   * an authentication failure when it holds no transient keyword but an authentication one.
   */
  lemma ClassifyByKeywords(message: string)
    ensures Classify(message) == Transient <==>
      exists i :: 0 <= i < |TransientWords| && Contains(Lower(message), TransientWords[i])
    ensures Classify(message) == Authentication <==>
      (forall i :: 0 <= i < |TransientWords| ==> !Contains(Lower(message), TransientWords[i])) &&
      exists i :: 0 <= i < |AuthWords| && Contains(Lower(message), AuthWords[i])
  {
    AnyContainedIff(TransientWords, Lower(message));
    AnyContainedIff(AuthWords, Lower(message));
  }

  /** User info when the token is valid, how many calls were made, and the waits between them. */
  datatype Validation = Validation(info: Option<map<string, string>>, attempts: nat, waits: seq<nat>)

  /** A reply counts as success when it is a user object with an "id" key. */
  predicate Accepted(o: Outcome) {
    o.Answer? && "id" in o.info
  }

  /** A failure that the loop retries. */
  predicate Retried(o: Outcome) {
    o.Raised? && Classify(o.message) == Transient
  }

  predicate AcceptedAt(outcomes: seq<Outcome>, at: nat, j: nat) {
    Accepted(OutcomeAt(outcomes, at + j))
  }

  predicate RetriedAt(outcomes: seq<Outcome>, at: nat, j: nat) {
    Retried(OutcomeAt(outcomes, at + j))
  }

  /**
   * The attempts from number `attempt` on, of `max` in all, with the call for attempt number j
   * at position `at + j` of the stream.
   */
  function Attempts(outcomes: seq<Outcome>, at: nat, attempt: nat, max: nat): (v: Validation)
    requires attempt <= max
    ensures v.attempts <= max - attempt
    ensures v.info.Some? ==> "id" in v.info.value
    decreases max - attempt
  {
    if attempt >= max then Validation(None, 0, [])
    else
      var o := OutcomeAt(outcomes, at + attempt);
      if Retried(o) && attempt < max - 1 then
        var rest := Attempts(outcomes, at, attempt + 1, max);
        Validation(rest.info, rest.attempts + 1, [(attempt + 1) * 2] + rest.waits)
      else if Accepted(o) then Validation(Some(o.info), 1, [])
      else Validation(None, 1, [])
  }

  /** _validate_token(token, max_retries) with the stream of call outcomes at position `at`. */
  function Validate(token: string, max: nat, outcomes: seq<Outcome>, at: nat): (v: Validation)
    ensures |token| < MinTokenLength ==> v == Validation(None, 0, [])
    ensures v.attempts <= max
    ensures v.info.Some? ==> "id" in v.info.value
  {
    if |token| < MinTokenLength then Validation(None, 0, []) else Attempts(outcomes, at, 0, max)
  }

  /** The retry loop, the waits collected instead of slept. */
  method ValidateToken(token: string, max: nat, outcomes: seq<Outcome>, at: nat) returns (v: Validation)
    ensures v == Validate(token, max, outcomes, at)
  {
    if |token| < MinTokenLength {
      return Validation(None, 0, []);
    }
    var waits: seq<nat> := [];
    for attempt := 0 to max
      invariant waits == Backoff(attempt)
      invariant Attempts(outcomes, at, 0, max) == Prefixed(Attempts(outcomes, at, attempt, max), waits)
    {
      match OutcomeAt(outcomes, at + attempt)
      case Answer(info) =>
        if "id" in info {
          return Validation(Some(info), attempt + 1, waits);
        }
        return Validation(None, attempt + 1, waits);
      case Raised(message) =>
        if Classify(message) == Transient {
          if attempt < max - 1 {
            PrefixedStep(Attempts(outcomes, at, attempt + 1, max), waits, (attempt + 1) * 2);
            waits := waits + [(attempt + 1) * 2];
            continue;
          }
          return Validation(None, attempt + 1, waits);
        }
        return Validation(None, attempt + 1, waits);
    }
    return Validation(None, max, waits);
  }

  /** The waits after the first n failed attempts: 2, 4, 6, ... seconds. */
  function Backoff(n: nat): (r: seq<nat>)
    ensures |r| == n
    ensures forall i :: 0 <= i < n ==> r[i] == (i + 1) * 2
  {
    if n == 0 then [] else Backoff(n - 1) + [n * 2]
  }

  /** `v` preceded by the attempts that waited `waits`. */
  function Prefixed(v: Validation, waits: seq<nat>): Validation {
    Validation(v.info, v.attempts + |waits|, waits + v.waits)
  }

  lemma PrefixedStep(v: Validation, waits: seq<nat>, w: nat)
    ensures Prefixed(Validation(v.info, v.attempts + 1, [w] + v.waits), waits) == Prefixed(v, waits + [w])
  {
    assert waits + ([w] + v.waits) == (waits + [w]) + v.waits;
  }

  // ----- what the retry loop does -----

  /**
   * When the attempts from `attempt` to `k` - 1 all failed transiently and attempt `k` is the
   * first that is not retried (or the last allowed), the validation ends with attempt `k`: it
   * made k - attempt + 1 calls, waited the next backoff steps up to k, and succeeded exactly when
   * that reply was a user object with an "id", whose info it returns.
   */
  lemma {:induction false} AttemptsStopAt(outcomes: seq<Outcome>, at: nat, attempt: nat, max: nat, k: nat)
    requires attempt <= k < max
    requires forall j :: attempt <= j < k ==> RetriedAt(outcomes, at, j)
    requires !RetriedAt(outcomes, at, k) || k == max - 1
    ensures var v := Attempts(outcomes, at, attempt, max);
      && v.attempts == k - attempt + 1
      && |v.waits| == k - attempt
      && (forall i :: 0 <= i < |v.waits| ==> v.waits[i] == (attempt + i + 1) * 2)
      && v.info == if AcceptedAt(outcomes, at, k) then Some(OutcomeAt(outcomes, at + k).info) else None
    decreases k - attempt
  {
    if attempt < k {
      assert RetriedAt(outcomes, at, attempt);
      AttemptsStopAt(outcomes, at, attempt + 1, max, k);
      AttemptsStep(outcomes, at, attempt, max);
      var rest := Attempts(outcomes, at, attempt + 1, max);
      var v := Attempts(outcomes, at, attempt, max);
      assert v.attempts == rest.attempts + 1 && v.info == rest.info;
      assert v.waits == [(attempt + 1) * 2] + rest.waits;
      WaitsFrom(v.waits, rest.waits, attempt);
    } else {
      AttemptsLast(outcomes, at, k, max);
    }
  }

  /** A retried attempt that is not the last waits, then the next attempt decides. */
  lemma AttemptsStep(outcomes: seq<Outcome>, at: nat, attempt: nat, max: nat)
    requires attempt < max - 1 && RetriedAt(outcomes, at, attempt)
    ensures var rest := Attempts(outcomes, at, attempt + 1, max);
      Attempts(outcomes, at, attempt, max) == Validation(rest.info, rest.attempts + 1, [(attempt + 1) * 2] + rest.waits)
  {
  }

  /** An attempt that is not retried, or the last one, decides alone. */
  lemma AttemptsLast(outcomes: seq<Outcome>, at: nat, k: nat, max: nat)
    requires k < max && (!RetriedAt(outcomes, at, k) || k == max - 1)
    ensures Attempts(outcomes, at, k, max) ==
      Validation(if AcceptedAt(outcomes, at, k) then Some(OutcomeAt(outcomes, at + k).info) else None, 1, [])
  {
  }

  /** Waits of 2 * (n + 1) seconds from attempt `attempt` on, with one more in front. */
  lemma WaitsFrom(w: seq<nat>, rest: seq<nat>, attempt: nat)
    requires w == [(attempt + 1) * 2] + rest
    requires forall i :: 0 <= i < |rest| ==> rest[i] == (attempt + 1 + i + 1) * 2
    ensures forall i :: 0 <= i < |w| ==> w[i] == (attempt + i + 1) * 2
  {
    forall i | 1 <= i < |w|
      ensures w[i] == (attempt + i + 1) * 2
    {
      assert w[i] == rest[i - 1];
    }
  }

  /** Some attempt ends the validation: the first one not retried, or the last one allowed. */
  lemma {:induction false} StopIndex(outcomes: seq<Outcome>, at: nat, attempt: nat, max: nat) returns (k: nat)
    requires attempt < max
    ensures attempt <= k < max
    ensures forall j :: attempt <= j < k ==> RetriedAt(outcomes, at, j)
    ensures !RetriedAt(outcomes, at, k) || k == max - 1
    decreases max - attempt
  {
    if !RetriedAt(outcomes, at, attempt) || attempt == max - 1 {
      k := attempt;
    } else {
      k := StopIndex(outcomes, at, attempt + 1, max);
    }
  }

  /** The calls made and the waits between them, for a token long enough to be tried. */
  lemma ValidateStopsAt(token: string, max: nat, outcomes: seq<Outcome>, at: nat, k: nat)
    requires |token| >= MinTokenLength && k < max
    requires forall j :: 0 <= j < k ==> RetriedAt(outcomes, at, j)
    requires !RetriedAt(outcomes, at, k) || k == max - 1
    ensures var v := Validate(token, max, outcomes, at);
      && v.attempts == k + 1
      && v.waits == Backoff(k)
      && v.info == if AcceptedAt(outcomes, at, k) then Some(OutcomeAt(outcomes, at + k).info) else None
  {
    AttemptsStopAt(outcomes, at, 0, max, k);
  }

  /**
   * A token is accepted exactly when it is long enough and, within the allowed attempts, a user
   * object with an "id" comes back after nothing but transient failures.
   */
  lemma ValidateSucceedsIff(token: string, max: nat, outcomes: seq<Outcome>, at: nat)
    ensures Validate(token, max, outcomes, at).info.Some? <==>
      |token| >= MinTokenLength &&
      exists k :: 0 <= k < max && AcceptedAt(outcomes, at, k) && forall j :: 0 <= j < k ==> RetriedAt(outcomes, at, j)
  {
    if |token| >= MinTokenLength && max > 0 {
      var k := StopIndex(outcomes, at, 0, max);
      ValidateStopsAt(token, max, outcomes, at, k);
      if exists k' :: 0 <= k' < max && AcceptedAt(outcomes, at, k') && forall j :: 0 <= j < k' ==> RetriedAt(outcomes, at, j) {
        var k' :| 0 <= k' < max && AcceptedAt(outcomes, at, k') && forall j :: 0 <= j < k' ==> RetriedAt(outcomes, at, j);
        ValidateStopsAt(token, max, outcomes, at, k');
      }
    }
  }

  /** When every allowed attempt fails transiently, all of them are made and the result is None, not an error. */
  lemma AllTransientExhausts(token: string, max: nat, outcomes: seq<Outcome>, at: nat)
    requires |token| >= MinTokenLength && max > 0
    requires forall j :: 0 <= j < max ==> RetriedAt(outcomes, at, j)
    ensures Validate(token, max, outcomes, at) == Validation(None, max, Backoff(max - 1))
  {
    assert RetriedAt(outcomes, at, max - 1);
    ValidateStopsAt(token, max, outcomes, at, max - 1);
  }

  /** An authentication or unexpected failure ends the validation at that attempt, without a wait after it. */
  lemma FailureStopsAtOnce(token: string, max: nat, outcomes: seq<Outcome>, at: nat, k: nat)
    requires |token| >= MinTokenLength && k < max
    requires forall j :: 0 <= j < k ==> RetriedAt(outcomes, at, j)
    requires OutcomeAt(outcomes, at + k).Raised? && Classify(OutcomeAt(outcomes, at + k).message) != Transient
    ensures Validate(token, max, outcomes, at) == Validation(None, k + 1, Backoff(k))
  {
    ValidateStopsAt(token, max, outcomes, at, k);
  }

  /** A single attempt, as diagnose_token makes, never waits. */
  lemma SingleAttemptNeverWaits(token: string, outcomes: seq<Outcome>, at: nat)
    ensures Validate(token, 1, outcomes, at).waits == []
  {
    if |token| >= MinTokenLength {
      ValidateStopsAt(token, 1, outcomes, at, 0);
      assert |Backoff(0)| == 0;
    }
  }
}
