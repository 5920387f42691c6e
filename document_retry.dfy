/**
 * DocumentManager._create_document_from_template: up to MAX_RETRIES (3) copy requests; a
 * server error (status 500) or any exception is retried after (attempt + 1) * 2 seconds, and
 * the last failure raises "Failed to create document after 3 attempts: ...".
 *
 * The requests are a sequence of outcomes, one per attempt (past its end an attempt fails
 * with an empty message); the waits are returned as a log.
 */
module DocumentRetry {
  import opened Wrappers
  import TokenValidation

  const MaxRetries := 3

  /** What one attempt gives: the new thread's id, a status 500, or an exception's message. */
  datatype Attempt = Created(threadId: string) | ServerError | Failed(message: string)

  /** The thread id or the message raised, the attempts made and the waits between them. */
  datatype Creation = Creation(result: Result<string, string>, attempts: nat, waits: seq<nat>)

  function AttemptAt(outcomes: seq<Attempt>, k: nat): Attempt {
    if k < |outcomes| then outcomes[k] else Failed("")
  }

  /** The message of the exception a failed attempt ends in; a 500 on the last attempt raises its own. */
  function FailureMessage(a: Attempt): string {
    match a
    case Created(_) => ""
    case ServerError => " Server error after all retries"
    case Failed(m) => m
  }

  const FinalPrefix := " Failed to create document after 3 attempts: "

  /** The attempts from number `attempt` on. */
  function AttemptsFrom(outcomes: seq<Attempt>, attempt: nat): (c: Creation)
    ensures attempt < MaxRetries ==> 1 <= c.attempts <= MaxRetries - attempt
    decreases MaxRetries - attempt
  {
    if attempt >= MaxRetries then Creation(Err(""), 0, [])
    else
      match AttemptAt(outcomes, attempt)
      case Created(id) => Creation(Ok(id), 1, [])
      case _ =>
        if attempt < MaxRetries - 1 then
          var rest := AttemptsFrom(outcomes, attempt + 1);
          Creation(rest.result, rest.attempts + 1, [(attempt + 1) * 2] + rest.waits)
        else Creation(Err(FinalPrefix + FailureMessage(AttemptAt(outcomes, attempt))), 1, [])
  }

  function CreateDocument(outcomes: seq<Attempt>): Creation {
    AttemptsFrom(outcomes, 0)
  }

  /** The retry loop, the waits collected instead of slept. */
  method CreateDocumentFromTemplate(outcomes: seq<Attempt>) returns (c: Creation)
    ensures c == CreateDocument(outcomes)
  {
    var waits: seq<nat> := [];
    var attempt := 0;
    while true
      invariant attempt < MaxRetries
      invariant waits == TokenValidation.Backoff(attempt)
      invariant CreateDocument(outcomes) == Preceded(AttemptsFrom(outcomes, attempt), waits)
      decreases MaxRetries - attempt
    {
      var outcome := AttemptAt(outcomes, attempt);
      if outcome.Created? {
        return Creation(Ok(outcome.threadId), attempt + 1, waits);
      }
      if attempt == MaxRetries - 1 {
        return Creation(Err(FinalPrefix + FailureMessage(outcome)), attempt + 1, waits);
      }
      PrecededStep(AttemptsFrom(outcomes, attempt + 1), waits, (attempt + 1) * 2);
      waits := waits + [(attempt + 1) * 2];
      attempt := attempt + 1;
    }
  }

  /** `c` preceded by the failed attempts that waited `waits`. */
  function Preceded(c: Creation, waits: seq<nat>): Creation {
    Creation(c.result, c.attempts + |waits|, waits + c.waits)
  }

  lemma PrecededStep(c: Creation, waits: seq<nat>, w: nat)
    ensures Preceded(Creation(c.result, c.attempts + 1, [w] + c.waits), waits) == Preceded(c, waits + [w])
  {
    assert waits + ([w] + c.waits) == (waits + [w]) + c.waits;
  }

  /**
   * When attempts `attempt` to k - 1 failed and attempt k succeeds or is the last, the creation
   * ends with attempt k, having waited the backoff steps up to it.
   */
  lemma {:induction false} StopsAt(outcomes: seq<Attempt>, attempt: nat, k: nat)
    requires attempt <= k < MaxRetries
    requires forall j :: attempt <= j < k ==> !AttemptAt(outcomes, j).Created?
    requires AttemptAt(outcomes, k).Created? || k == MaxRetries - 1
    ensures var c := AttemptsFrom(outcomes, attempt);
      && c.attempts == k - attempt + 1
      && |c.waits| == k - attempt
      && (forall i :: 0 <= i < |c.waits| ==> c.waits[i] == (attempt + i + 1) * 2)
      && c.result == if AttemptAt(outcomes, k).Created? then Ok(AttemptAt(outcomes, k).threadId)
                     else Err(FinalPrefix + FailureMessage(AttemptAt(outcomes, k)))
    decreases k - attempt
  {
    if attempt < k {
      assert !AttemptAt(outcomes, attempt).Created?;
      StopsAt(outcomes, attempt + 1, k);
      var rest := AttemptsFrom(outcomes, attempt + 1);
      var c := AttemptsFrom(outcomes, attempt);
      assert c.waits == [(attempt + 1) * 2] + rest.waits;
      forall i | 1 <= i < |c.waits|
        ensures c.waits[i] == (attempt + i + 1) * 2
      {
        assert c.waits[i] == rest.waits[i - 1];
      }
    }
  }

  /** The first attempt that creates the document decides the thread id; the earlier ones each waited. */
  lemma CreatedAt(outcomes: seq<Attempt>, k: nat)
    requires k < MaxRetries && AttemptAt(outcomes, k).Created?
    requires forall j :: 0 <= j < k ==> !AttemptAt(outcomes, j).Created?
    ensures CreateDocument(outcomes) == Creation(Ok(AttemptAt(outcomes, k).threadId), k + 1, TokenValidation.Backoff(k))
  {
    StopsAt(outcomes, 0, k);
  }

  /** Three failures raise, after waits of 2 and 4 seconds; the message names the last failure. */
  lemma AllAttemptsFail(outcomes: seq<Attempt>)
    requires forall j :: 0 <= j < MaxRetries ==> !AttemptAt(outcomes, j).Created?
    ensures CreateDocument(outcomes) ==
      Creation(Err(FinalPrefix + FailureMessage(AttemptAt(outcomes, MaxRetries - 1))), MaxRetries, [2, 4])
  {
    StopsAt(outcomes, 0, MaxRetries - 1);
  }

  /** The document is created exactly when one of the three attempts creates it. */
  lemma CreatedIff(outcomes: seq<Attempt>)
    ensures CreateDocument(outcomes).result.Ok? <==> exists k :: 0 <= k < MaxRetries && AttemptAt(outcomes, k).Created?
  {
    if exists k :: 0 <= k < MaxRetries && AttemptAt(outcomes, k).Created? {
      var k :| 0 <= k < MaxRetries && AttemptAt(outcomes, k).Created?;
      FirstCreated(outcomes, k);
    } else {
      AllAttemptsFail(outcomes);
    }
  }

  /** Some attempt at or before a creating one is the first to create. */
  lemma FirstCreated(outcomes: seq<Attempt>, k: nat)
    requires k < MaxRetries && AttemptAt(outcomes, k).Created?
    ensures CreateDocument(outcomes).result.Ok?
  {
    if AttemptAt(outcomes, 0).Created? {
      CreatedAt(outcomes, 0);
    } else if AttemptAt(outcomes, 1).Created? {
      CreatedAt(outcomes, 1);
    } else {
      CreatedAt(outcomes, 2);
    }
  }
}
