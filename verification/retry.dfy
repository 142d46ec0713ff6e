/** `create_issue_with_retry` (scripts/gh-import-issues.py:204-219): post the
    payload, retrying with exponential backoff while the error looks
    transient.

    The `gh api` call of each attempt is an input: `outcomes[k]` is the
    reply of attempt `k + 1`. The sleeps are recorded, not performed. */
module Retry {
  import opened Wrappers
  import opened Text
  import opened Gh
  import opened Payload

  /** The lower-case fragments that mark an error as transient (line 213). */
  const TransientTokens: seq<string> :=
    ["timeout", "timed out", "rate limit", "502", "503", "500", "network", "temporarily unavailable"]

  /** `any(token in text for token in tokens)`. */
  predicate AnyToken(text: string, tokens: seq<string>) {
    tokens != [] && (Contains(text, tokens[0]) || AnyToken(text, tokens[1..]))
  }

  lemma {:induction false} AnyTokenMeans(text: string, tokens: seq<string>)
    ensures AnyToken(text, tokens) <==> exists k :: 0 <= k < |tokens| && Contains(text, tokens[k])
  {
    if tokens != [] {
      AnyTokenMeans(text, tokens[1..]);
      if AnyToken(text, tokens[1..]) {
        var k :| 0 <= k < |tokens[1..]| && Contains(text, tokens[1..][k]);
        assert Contains(text, tokens[k + 1]);
      }
      if exists k :: 0 <= k < |tokens| && Contains(text, tokens[k]) {
        var k :| 0 <= k < |tokens| && Contains(text, tokens[k]);
        if k > 0 {
          assert tokens[1..][k - 1] == tokens[k];
        }
      }
    }
  }

  /** An error is transient when its lower-cased text contains one of the
      tokens anywhere. */
  predicate IsTransient(text: string) {
    AnyToken(Lower(text), TransientTokens)
  }

  /** `IsTransient` tests every token, against the whole lower-cased text. */
  lemma IsTransientMeans(text: string)
    ensures IsTransient(text) <==>
      exists k :: 0 <= k < |TransientTokens| && Contains(Lower(text), TransientTokens[k])
  {
    AnyTokenMeans(Lower(text), TransientTokens);
  }

  /** What one attempt of `create_issue_via_api` returns or raises: the
      issue number and URL, or the text of the exception. */
  function AttemptResult(p: Payload, reply: Reply<(int, string)>): (r: Result<(int, string), string>)
    ensures reply.Replied? ==> r == Success(reply.value)
    ensures reply.CommandFailed? ==> r.Failure? && Contains(r.error, p.title)
    ensures reply.CommandFailed? ==> Contains(r.error, reply.stderr) && Contains(r.error, Dumps(p))
    ensures reply.BadReply? ==> r == Failure(reply.text)
  {
    match reply
    case Replied(v) => Success(v)
    case CommandFailed(err) => Failure(CreationError(p, err))
    case BadReply(text) => Failure(text)
  }

  /** The attempt results for a sequence of `gh api` replies. */
  function AttemptResults(p: Payload, replies: seq<Reply<(int, string)>>): (rs: seq<Result<(int, string), string>>)
    ensures |rs| == |replies|
    ensures forall k :: 0 <= k < |replies| ==> rs[k] == AttemptResult(p, replies[k])
  {
    if replies == [] then [] else [AttemptResult(p, replies[0])] + AttemptResults(p, replies[1..])
  }

  /** The number of attempts the loop allows: `attempt >= retries` stops it
      after the first attempt when `retries` is below 1. */
  function AttemptBudget(retries: int): (n: nat)
    ensures n >= 1 && n >= retries
    ensures retries >= 1 ==> n == retries
    ensures retries < 1 ==> n == 1
  {
    if retries < 1 then 1 else retries
  }

  function Pow2(k: nat): (r: real)
    ensures r >= 1.0
  {
    if k == 0 then 1.0 else 2.0 * Pow2(k - 1)
  }

  /** The sleep after failed attempt `k + 1`: `base` doubled `k` times. */
  function Backoff(base: real, k: nat): real {
    if k == 0 then base else 2.0 * Backoff(base, k - 1)
  }

  /** `retry_base_delay * (2 ** (attempt - 1))` for attempt `k + 1`. */
  lemma {:induction false} BackoffFormula(base: real, k: nat)
    ensures Backoff(base, k) == base * Pow2(k)
  {
    if k > 0 {
      BackoffFormula(base, k - 1);
      assert 2.0 * (base * Pow2(k - 1)) == base * (2.0 * Pow2(k - 1));
    }
  }

  /** The result of the loop, the sleeps taken between attempts, and the
      number of attempts made. */
  datatype RetryRun = RetryRun(result: Result<(int, string), string>, sleeps: seq<real>, attempts: nat)

  /** An attempt that failed with an error the loop retries. */
  predicate RetriedFailure(a: Result<(int, string), string>) {
    a.Failure? && IsTransient(a.error)
  }

  /** The loop from attempt number `attempt` on; `outcomes[k]` is what
      attempt `k + 1` returns or raises. */
  function AttemptsFrom(retries: int, base: real, outcomes: seq<Result<(int, string), string>>, attempt: nat)
    : (r: RetryRun)
    requires 1 <= attempt <= AttemptBudget(retries) <= |outcomes|
    ensures attempt <= r.attempts <= AttemptBudget(retries)
    ensures |r.sleeps| == r.attempts - attempt
    ensures forall k :: 0 <= k < |r.sleeps| ==> r.sleeps[k] == Backoff(base, attempt - 1 + k)
    ensures forall j :: attempt - 1 <= j < r.attempts - 1 ==> RetriedFailure(outcomes[j])
    ensures r.result == outcomes[r.attempts - 1]
    ensures r.result.Failure? ==> !RetriedFailure(r.result) || r.attempts == AttemptBudget(retries)
    decreases |outcomes| - attempt
  {
    var a := outcomes[attempt - 1];
    if a.Success? then RetryRun(a, [], attempt)
    else if attempt >= retries || !IsTransient(a.error) then RetryRun(a, [], attempt)
    else
      var rest := AttemptsFrom(retries, base, outcomes, attempt + 1);
      var sleeps := [Backoff(base, attempt - 1)] + rest.sleeps;
      assert forall k :: 0 <= k < |sleeps| ==> sleeps[k] == Backoff(base, attempt - 1 + k) by {
        forall k | 0 < k < |sleeps| ensures sleeps[k] == Backoff(base, attempt - 1 + k) {
          assert sleeps[k] == rest.sleeps[k - 1];
        }
      }
      RetryRun(rest.result, sleeps, rest.attempts)
  }

  /** `create_issue_with_retry`, given what each attempt of
      `create_issue_via_api` would return or raise. In a dry run
      `create_issue_via_api` returns `(-1, "DRY-RUN")` without calling `gh`,
      so nothing is attempted and nothing is slept. Otherwise every attempt
      before the last failed with a transient error, the last attempt's
      outcome is the result, and a failure is final only when it is not
      transient or the budget is used up. */
  function CreateWithRetry(dryRun: bool, retries: int, base: real,
                           outcomes: seq<Result<(int, string), string>>): (r: RetryRun)
    requires AttemptBudget(retries) <= |outcomes|
    ensures dryRun ==> r == RetryRun(Success((-1, "DRY-RUN")), [], 0)
    ensures !dryRun ==> 1 <= r.attempts <= AttemptBudget(retries)
    ensures |r.sleeps| == if dryRun then 0 else r.attempts - 1
    ensures forall k :: 0 <= k < |r.sleeps| ==> r.sleeps[k] == Backoff(base, k)
    ensures !dryRun ==> forall j :: 0 <= j < r.attempts - 1 ==> RetriedFailure(outcomes[j])
    ensures !dryRun ==> r.result == outcomes[r.attempts - 1]
    ensures !dryRun && r.result.Failure? ==>
              !RetriedFailure(r.result) || r.attempts == AttemptBudget(retries)
  {
    if dryRun then RetryRun(Success((-1, "DRY-RUN")), [], 0)
    else AttemptsFrom(retries, base, outcomes, 1)
  }

  /** The first success ends the loop: if attempt `n` succeeds and every
      earlier one failed transiently, exactly `n` attempts are made, the
      sleeps double from `base`, and the result of attempt `n` is returned. */
  lemma FirstSuccessReturned(retries: int, base: real,
                             outcomes: seq<Result<(int, string), string>>, n: nat)
    requires AttemptBudget(retries) <= |outcomes|
    requires 1 <= n <= AttemptBudget(retries)
    requires outcomes[n - 1].Success?
    requires forall j :: 0 <= j < n - 1 ==> RetriedFailure(outcomes[j])
    ensures CreateWithRetry(false, retries, base, outcomes)
         == RetryRun(outcomes[n - 1], seq(n - 1, (k: nat) => Backoff(base, k)), n)
  {
    var r := CreateWithRetry(false, retries, base, outcomes);
    assert r.attempts == n;
    assert forall k :: 0 <= k < n - 1 ==> r.sleeps[k] == seq(n - 1, (k: nat) => Backoff(base, k))[k];
  }

  /** When every attempt fails transiently the loop makes the whole budget
      of attempts and raises the last error. */
  lemma AllTransientExhausts(retries: int, base: real, outcomes: seq<Result<(int, string), string>>)
    requires AttemptBudget(retries) <= |outcomes|
    requires forall j :: 0 <= j < AttemptBudget(retries) ==> RetriedFailure(outcomes[j])
    ensures var r := CreateWithRetry(false, retries, base, outcomes);
      && r.attempts == AttemptBudget(retries)
      && r.result == outcomes[AttemptBudget(retries) - 1]
  {
    var r := CreateWithRetry(false, retries, base, outcomes);
    assert RetriedFailure(outcomes[r.attempts - 1]);
  }

  /** Any text mentioning "500", in whatever context, is transient. */
  lemma Mentions500(e: string)
    requires Contains(e, "500")
    ensures IsTransient(e)
  {
    ContainsLower(e, "500");
    assert Lower("500") == "500";
    assert TransientTokens[5] == "500";
    IsTransientMeans(e);
  }

  /** A title containing "500" makes every failure of the `gh api` command
      transient, whatever gh reported: the error text embeds the title. */
  lemma TitleMarksTransient(p: Payload, stderr: string)
    requires Contains(p.title, "500")
    ensures RetriedFailure(AttemptResult(p, CommandFailed(stderr)))
  {
    var a := AttemptResult(p, CommandFailed(stderr));
    ContainsTransitive(a.error, p.title, "500");
    Mentions500(a.error);
  }

  /** A failure of the `gh api` command whose stderr names a transient
      condition is itself transient and retried: the error text embeds the
      stderr, and `is_transient` lower-cases the whole text. */
  lemma StderrMarksTransient(p: Payload, stderr: string)
    requires IsTransient(stderr)
    ensures RetriedFailure(AttemptResult(p, CommandFailed(stderr)))
  {
    var e := AttemptResult(p, CommandFailed(stderr)).error;
    IsTransientMeans(stderr);
    var k :| 0 <= k < |TransientTokens| && Contains(Lower(stderr), TransientTokens[k]);
    ContainsLower(e, stderr);
    ContainsTransitive(Lower(e), Lower(stderr), TransientTokens[k]);
    IsTransientMeans(e);
  }
}
