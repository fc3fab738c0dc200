/** `callOpenAI` (pages/api/generate.js:9-28): up to `retries` requests to
    the model, each raced against a timeout, returning the first answer and
    rethrowing the last error once the budget is spent. */
module Retry {

  /** The outcome of one request: an answer, or an error (a failed request
      or the timeout winning the race). */
  datatype Attempt = Answered(content: string) | Failed(message: string)

  /** What `callOpenAI` does: return an answer, throw an error, or fall out
      of the loop without either (`undefined`). */
  datatype CallResult = Returned(content: string) | Threw(message: string) | NoResult

  const DefaultRetries := 2
  const TimeoutMessage := "OpenAI request timed out"

  /** The outcome of the request numbered `k` (from 0); the environment
      supplies the outcomes in order, and a request whose outcome is not
      supplied never answers, so the timeout rejects it. */
  function AttemptOutcome(outcomes: seq<Attempt>, k: nat): Attempt {
    if k < |outcomes| then outcomes[k] else Failed(TimeoutMessage)
  }

  /** Runs the retry loop; `made` is the number of requests sent. */
  method CallOpenAI(outcomes: seq<Attempt>, retries: int) returns (result: CallResult, made: nat)
    ensures retries <= 0 ==> result == NoResult && made == 0
    ensures retries > 0 ==> 1 <= made <= retries && !result.NoResult?
    ensures forall k :: 0 <= k < made - 1 ==> AttemptOutcome(outcomes, k).Failed?
    ensures result.Returned? ==> AttemptOutcome(outcomes, made - 1) == Answered(result.content)
    ensures result.Threw? ==> made == retries && AttemptOutcome(outcomes, made - 1) == Failed(result.message)
    ensures retries > 0 ==> result == FirstAnswer(outcomes, retries, 0)
  {
    result := NoResult;
    made := 0;
    var left := retries;
    while left > 0
      invariant retries <= 0 ==> left == retries && made == 0
      invariant retries > 0 ==> 0 < left && made + left == retries
      invariant forall k :: 0 <= k < made ==> AttemptOutcome(outcomes, k).Failed?
      invariant result == NoResult
      decreases left
    {
      var outcome := AttemptOutcome(outcomes, made);
      made := made + 1;
      match outcome
      case Answered(content) =>
        result := Returned(content);
        FirstAnswerSkipsFailures(outcomes, retries, 0, made - 1);
        return;
      case Failed(message) =>
        left := left - 1;
        if left == 0 {
          result := Threw(message);
          FirstAnswerAllFail(outcomes, retries, 0);
          return;
        }
    }
  }

  /** The answer `callOpenAI` returns for a positive budget, as a function of
      the outcomes: the first answer among the first `retries` requests, or
      the error of the last of them. */
  function FirstAnswer(outcomes: seq<Attempt>, retries: nat, from: nat): (r: CallResult)
    requires from < retries
    ensures r.Returned? ==> exists k :: from <= k < retries && AttemptOutcome(outcomes, k) == Answered(r.content)
    ensures r.Threw? ==> AttemptOutcome(outcomes, retries - 1) == Failed(r.message)
    ensures !r.NoResult?
    decreases retries - from
  {
    match AttemptOutcome(outcomes, from)
    case Answered(content) => Returned(content)
    case Failed(message) =>
      if from + 1 == retries then Threw(message) else FirstAnswer(outcomes, retries, from + 1)
  }

  /** The first answer after a run of failures is the one returned. */
  lemma {:induction false} FirstAnswerSkipsFailures(outcomes: seq<Attempt>, retries: nat, from: nat, k: nat)
    requires from <= k < retries
    requires forall j :: from <= j < k ==> AttemptOutcome(outcomes, j).Failed?
    requires AttemptOutcome(outcomes, k).Answered?
    ensures FirstAnswer(outcomes, retries, from) == Returned(AttemptOutcome(outcomes, k).content)
    decreases k - from
  {
    if from < k {
      FirstAnswerSkipsFailures(outcomes, retries, from + 1, k);
    }
  }

  /** When every request in the budget fails, the last error is rethrown. */
  lemma {:induction false} FirstAnswerAllFail(outcomes: seq<Attempt>, retries: nat, from: nat)
    requires from < retries
    requires forall j :: from <= j < retries ==> AttemptOutcome(outcomes, j).Failed?
    ensures FirstAnswer(outcomes, retries, from) == Threw(AttemptOutcome(outcomes, retries - 1).message)
    decreases retries - from
  {
    if from + 1 < retries {
      FirstAnswerAllFail(outcomes, retries, from + 1);
    }
  }

  /** With the default budget of 2 there are two requests in total: a first
      answer is returned at once, and two failures rethrow the second error. */
  lemma DefaultBudget(outcomes: seq<Attempt>)
    ensures AttemptOutcome(outcomes, 0).Answered? ==>
      FirstAnswer(outcomes, DefaultRetries, 0) == Returned(AttemptOutcome(outcomes, 0).content)
    ensures AttemptOutcome(outcomes, 0).Failed? && AttemptOutcome(outcomes, 1).Answered? ==>
      FirstAnswer(outcomes, DefaultRetries, 0) == Returned(AttemptOutcome(outcomes, 1).content)
    ensures AttemptOutcome(outcomes, 0).Failed? && AttemptOutcome(outcomes, 1).Failed? ==>
      FirstAnswer(outcomes, DefaultRetries, 0) == Threw(AttemptOutcome(outcomes, 1).message)
  {
  }
}
