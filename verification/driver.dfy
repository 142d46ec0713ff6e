/** The import run of `main` (scripts/gh-import-issues.py:305-404): label
    pre-creation, then one pass over the rows in which each row ends either
    created or as an error message, then the exit status.

    Every `gh` reply the run meets is an input (`RowReplies`, the label
    listing). The mutating `gh` invocations the run makes are recorded as
    `Call`s, so what a dry run does — nothing — can be stated. */
module Driver {
  import opened Wrappers
  import opened Text
  import opened Json
  import opened Gh
  import opened Rows
  import opened Payload
  import opened Retry
  import opened Labels
  import opened Milestones

  /** The command-line options that shape the run, with `--repo` already
      split into owner and name. */
  datatype Config = Config(
    owner: string,
    repoName: string,
    dryRun: bool,
    noLabelCreate: bool,
    noMilestoneCreate: bool,
    retries: int,
    retryBaseDelay: real)

  function RepoFull(cfg: Config): string {
    cfg.owner + "/" + cfg.repoName
  }

  /** A `gh` invocation that changes the repository or a project. */
  datatype Call =
    | CreateLabel(name: string)
    | CreateMilestone(title: string)
    | PostIssue(payload: Payload)
    | AddToProject(projectOwner: string, projectNumber: nat, url: string)
    | CloseIssue(url: string, repo: string, reason: Option<string>)

  /** The replies one row meets: the milestone listings and creation, one
      reply per creation attempt, and the stderr of a failed
      `gh project item-add` or `gh issue close` (None when it succeeds). */
  datatype RowReplies = RowReplies(
    milestone: MilestoneReplies,
    attempts: seq<Reply<(int, string)>>,
    attach: Option<string>,
    close: Option<string>)

  /** How a row ends: an entry of `created` or of `errors`. */
  datatype RowOutcome =
    | Created(index: nat, number: string, url: string)
    | Failed(message: string)

  /** The message recorded in `errors` for row `idx` (line 383). */
  function RowError(idx: nat, title: string, e: string): string {
    "Row " + NatToString(idx) + " ('" + title + "') failed: " + e
  }

  /** `max(1, args.retries)` (line 364). */
  function RetriesOption(retries: int): (n: int)
    ensures n >= 1 && n >= retries
    ensures n == 1 || n == retries
  {
    if retries < 1 then 1 else retries
  }

  /** `max(0.1, args.retry_base_delay)` (line 365). */
  function BaseDelayOption(base: real): (d: real)
    ensures d >= 0.1 && d >= base
    ensures d == 0.1 || d == base
  {
    if base < 0.1 then 0.1 else base
  }

  /** The URL a dry run reports for an issue it did not create (line 369). */
  function DryRunUrl(cfg: Config): string {
    "https://github.com/" + cfg.owner + "/" + cfg.repoName + "/issues/<new>"
  }

  /** `row.project_owner and row.project_number`: both present and truthy. */
  predicate AttachesToProject(row: IssueRow) {
    row.projectOwner.Some? && row.projectOwner.value != []
    && row.projectNumber.Some? && row.projectNumber.value != 0
  }

  /** `args += ["--reason", reason]` only for a truthy reason. */
  function CloseReason(reason: Option<string>): (r: Option<string>)
    ensures r.Some? <==> reason.Some? && reason.value != []
    ensures r.Some? ==> r == reason
  {
    if reason.Some? && reason.value != [] then reason else None
  }

  /** The project and close steps after the issue exists (lines 371-379):
      the row's outcome and the calls made. A dry run makes no call and
      cannot fail here. */
  function FinishRow(cfg: Config, idx: nat, row: IssueRow, number: int, url: string, rr: RowReplies)
    : (r: (RowOutcome, seq<Call>))
    ensures cfg.dryRun ==> r == (Created(idx, IntToString(number), url), [])
    ensures r.0.Created? ==> r.0 == Created(idx, IntToString(number), url)
    ensures !cfg.dryRun ==>
      (r.0.Created? <==> (!AttachesToProject(row) || rr.attach.None?) && (row.state != "closed" || rr.close.None?))
  {
    if cfg.dryRun then (Created(idx, IntToString(number), url), [])
    else
      var attach :=
        if AttachesToProject(row)
        then [AddToProject(row.projectOwner.value, row.projectNumber.value, url)] else [];
      if AttachesToProject(row) && rr.attach.Some? then
        (Failed(RowError(idx, row.title,
           "Failed to add issue to project " + row.projectOwner.value + "/"
           + NatToString(row.projectNumber.value) + ": " + rr.attach.value)), attach)
      else
        var close :=
          if row.state == "closed" then [CloseIssue(url, RepoFull(cfg), CloseReason(row.closeReason))] else [];
        if row.state == "closed" && rr.close.Some? then
          (Failed(RowError(idx, row.title, "Failed to close issue " + url + ": " + rr.close.value)), attach + close)
        else (Created(idx, IntToString(number), url), attach + close)
  }

  /** One POST per attempt. */
  function PostCalls(p: Payload, n: nat): (cs: seq<Call>)
    ensures |cs| == n
    ensures forall k :: 0 <= k < n ==> cs[k] == PostIssue(p)
  {
    seq(n, _ => PostIssue(p))
  }

  /** The result of one iteration of the row loop. */
  datatype RowRun = RowRun(
    cache: Option<map<string, int>>,
    outcome: RowOutcome,
    calls: seq<Call>,
    sleeps: seq<real>)

  /** The calls of a row's milestone step. */
  function MilestoneCalls(row: IssueRow, step: MilestoneStep): seq<Call> {
    if step.created then [CreateMilestone(row.milestone.GetOr(""))] else []
  }

  /** One iteration of the loop at lines 340-387 for row number `idx`. */
  function RunRow(cfg: Config, cache: Option<map<string, int>>, idx: nat, row: IssueRow, rr: RowReplies)
    : (r: RowRun)
    requires AttemptBudget(RetriesOption(cfg.retries)) <= |rr.attempts|
    ensures OutcomeNamesRow(r.outcome, idx, row.title)
    ensures r.cache == ResolveMilestone(cache, row.milestone, cfg.noMilestoneCreate, cfg.dryRun, rr.milestone).cache
    ensures cfg.dryRun ==> r.calls == [] && r.sleeps == []
  {
    var step := ResolveMilestone(cache, row.milestone, cfg.noMilestoneCreate, cfg.dryRun, rr.milestone);
    var msCalls := MilestoneCalls(row, step);
    DryRunCreatesNoMilestone(cache, row.milestone, cfg.noMilestoneCreate, rr.milestone);
    match step.number
    case Failure(e) =>
      RowErrorPrefix(idx, row.title, e);
      RowRun(step.cache, Failed(RowError(idx, row.title, e)), msCalls, [])
    case Success(ms) =>
      var p := BuildPayload(row, ms);
      var rt := CreateWithRetry(cfg.dryRun, RetriesOption(cfg.retries), BaseDelayOption(cfg.retryBaseDelay),
                                AttemptResults(p, rr.attempts));
      var calls := msCalls + PostCalls(p, rt.attempts);
      match rt.result
      case Failure(e) =>
        RowErrorPrefix(idx, row.title, e);
        RowRun(step.cache, Failed(RowError(idx, row.title, e)), calls, rt.sleeps)
      case Success((number, url)) =>
        var url' := if cfg.dryRun then DryRunUrl(cfg) else url;
        var fin := FinishRow(cfg, idx, row, number, url', rr);
        FinishErrorPrefix(cfg, idx, row, number, url', rr);
        RowRun(step.cache, fin.0, calls + fin.1, rt.sleeps)
  }

  lemma RowErrorPrefix(idx: nat, title: string, e: string)
    ensures IsPrefix(RowError(idx, title, ""), RowError(idx, title, e))
  {
    assert RowError(idx, title, e) == RowError(idx, title, "") + e;
  }

  lemma FinishErrorPrefix(cfg: Config, idx: nat, row: IssueRow, number: int, url: string, rr: RowReplies)
    ensures FinishRow(cfg, idx, row, number, url, rr).0.Failed? ==>
              IsPrefix(RowError(idx, row.title, ""), FinishRow(cfg, idx, row, number, url, rr).0.message)
  {
    if cfg.dryRun {
    } else if AttachesToProject(row) && rr.attach.Some? {
      RowErrorPrefix(idx, row.title,
        "Failed to add issue to project " + row.projectOwner.value + "/"
        + NatToString(row.projectNumber.value) + ": " + rr.attach.value);
    } else if row.state == "closed" && rr.close.Some? {
      RowErrorPrefix(idx, row.title, "Failed to close issue " + url + ": " + rr.close.value);
    }
  }

  /** A row is created exactly when its milestone step, the issue creation,
      and (outside a dry run) the project and close steps all succeed. A row
      whose issue was created but whose close failed is an error only. */
  lemma RunRowCreated(cfg: Config, cache: Option<map<string, int>>, idx: nat, row: IssueRow, rr: RowReplies)
    requires AttemptBudget(RetriesOption(cfg.retries)) <= |rr.attempts|
    ensures var step := ResolveMilestone(cache, row.milestone, cfg.noMilestoneCreate, cfg.dryRun, rr.milestone);
      RunRow(cfg, cache, idx, row, rr).outcome.Created? <==>
        && step.number.Success?
        && CreateWithRetry(cfg.dryRun, RetriesOption(cfg.retries), BaseDelayOption(cfg.retryBaseDelay),
                           AttemptResults(BuildPayload(row, step.number.value), rr.attempts)).result.Success?
        && (cfg.dryRun || !AttachesToProject(row) || rr.attach.None?)
        && (cfg.dryRun || row.state != "closed" || rr.close.None?)
  {
  }

  // ---------------------------------------------------------------------
  // The row loop
  // ---------------------------------------------------------------------

  predicate EnoughAttempts(cfg: Config, replies: seq<RowReplies>) {
    forall k :: 0 <= k < |replies| ==> AttemptBudget(RetriesOption(cfg.retries)) <= |replies[k].attempts|
  }

  /** The state the loop carries: the milestone cache, the outcome of each
      row so far, the calls made and the sleeps taken. */
  datatype LoopState = LoopState(
    cache: Option<map<string, int>>,
    outcomes: seq<RowOutcome>,
    calls: seq<Call>,
    sleeps: seq<real>)

  /** Rows `rows`, numbered from `idx`, with `replies[k]` the replies of
      `rows[k]`: one outcome per row. */
  function RunRows(cfg: Config, cache: Option<map<string, int>>, idx: nat,
                   rows: seq<IssueRow>, replies: seq<RowReplies>): (s: LoopState)
    requires |replies| == |rows|
    requires EnoughAttempts(cfg, replies)
    ensures |s.outcomes| == |rows|
    decreases |rows|
  {
    if rows == [] then LoopState(cache, [], [], [])
    else
      EnoughAttemptsTail(cfg, replies);
      var r := RunRow(cfg, cache, idx, rows[0], replies[0]);
      var rest := RunRows(cfg, r.cache, idx + 1, rows[1..], replies[1..]);
      LoopState(rest.cache, [r.outcome] + rest.outcomes, r.calls + rest.calls, r.sleeps + rest.sleeps)
  }

  lemma EnoughAttemptsTail(cfg: Config, replies: seq<RowReplies>)
    requires EnoughAttempts(cfg, replies) && replies != []
    ensures AttemptBudget(RetriesOption(cfg.retries)) <= |replies[0].attempts|
    ensures EnoughAttempts(cfg, replies[1..])
  {
    assert forall k :: 0 <= k < |replies[1..]| ==> replies[1..][k] == replies[k + 1];
  }

  /** One step of the loop: the first row's outcome, then the rest's. */
  lemma RunRowsStep(cfg: Config, cache: Option<map<string, int>>, idx: nat,
                    rows: seq<IssueRow>, replies: seq<RowReplies>)
    requires |replies| == |rows| && EnoughAttempts(cfg, replies) && rows != []
    requires EnoughAttempts(cfg, replies[1..])
    requires AttemptBudget(RetriesOption(cfg.retries)) <= |replies[0].attempts|
    ensures var r := RunRow(cfg, cache, idx, rows[0], replies[0]);
      RunRows(cfg, cache, idx, rows, replies).outcomes
        == [r.outcome] + RunRows(cfg, r.cache, idx + 1, rows[1..], replies[1..]).outcomes
  {
  }

  /** Outcome `k` of `os` names row number `idx + k` and its title. */
  predicate AllNamed(os: seq<RowOutcome>, idx: nat, rows: seq<IssueRow>)
    requires |os| == |rows|
  {
    forall k :: 0 <= k < |os| ==> OutcomeNamesRow(os[k], idx + k, rows[k].title)
  }

  lemma AllNamedCons(o: RowOutcome, os: seq<RowOutcome>, idx: nat, rows: seq<IssueRow>)
    requires rows != [] && |os| == |rows| - 1
    requires OutcomeNamesRow(o, idx, rows[0].title)
    requires AllNamed(os, idx + 1, rows[1..])
    ensures AllNamed([o] + os, idx, rows)
  {
    forall k | 0 < k < |os| + 1
      ensures OutcomeNamesRow(([o] + os)[k], idx + k, rows[k].title)
    {
      assert ([o] + os)[k] == os[k - 1];
      assert rows[1..][k - 1] == rows[k];
    }
  }

  /** Every outcome of the loop is reported under its own row's number. */
  lemma {:induction false} RunRowsOutcome(cfg: Config, cache: Option<map<string, int>>, idx: nat,
                                          rows: seq<IssueRow>, replies: seq<RowReplies>)
    requires |replies| == |rows| && EnoughAttempts(cfg, replies)
    ensures AllNamed(RunRows(cfg, cache, idx, rows, replies).outcomes, idx, rows)
    decreases |rows|
  {
    if rows != [] {
      EnoughAttemptsTail(cfg, replies);
      var r := RunRow(cfg, cache, idx, rows[0], replies[0]);
      RunRowsOutcome(cfg, r.cache, idx + 1, rows[1..], replies[1..]);
      RunRowsStep(cfg, cache, idx, rows, replies);
      AllNamedCons(r.outcome, RunRows(cfg, r.cache, idx + 1, rows[1..], replies[1..]).outcomes, idx, rows);
    }
  }

  /** A dry run makes no call and takes no sleep. */
  lemma {:induction false} RunRowsDryRun(cfg: Config, cache: Option<map<string, int>>, idx: nat,
                                         rows: seq<IssueRow>, replies: seq<RowReplies>)
    requires |replies| == |rows| && EnoughAttempts(cfg, replies)
    ensures cfg.dryRun ==> RunRows(cfg, cache, idx, rows, replies).calls == []
    ensures cfg.dryRun ==> RunRows(cfg, cache, idx, rows, replies).sleeps == []
    decreases |rows|
  {
    if rows != [] {
      EnoughAttemptsTail(cfg, replies);
      var r := RunRow(cfg, cache, idx, rows[0], replies[0]);
      RunRowsDryRun(cfg, r.cache, idx + 1, rows[1..], replies[1..]);
    }
  }

  /** The loop never forgets a cached milestone number. */
  lemma {:induction false} RunRowsCache(cfg: Config, cache: Option<map<string, int>>, idx: nat,
                                        rows: seq<IssueRow>, replies: seq<RowReplies>)
    requires |replies| == |rows| && EnoughAttempts(cfg, replies)
    ensures CacheKeeps(cache, RunRows(cfg, cache, idx, rows, replies).cache)
    decreases |rows|
  {
    if rows != [] {
      EnoughAttemptsTail(cfg, replies);
      var r := RunRow(cfg, cache, idx, rows[0], replies[0]);
      CacheGrows(cache, rows[0].milestone, cfg.noMilestoneCreate, cfg.dryRun, replies[0].milestone);
      RunRowsCache(cfg, r.cache, idx + 1, rows[1..], replies[1..]);
      CacheKeepsTransitive(cache, r.cache, RunRows(cfg, r.cache, idx + 1, rows[1..], replies[1..]).cache);
    }
  }

  /** The outcome of row number `idx`: created under that number, or failed
      with a message that names the row. */
  predicate OutcomeNamesRow(o: RowOutcome, idx: nat, title: string) {
    && (o.Created? ==> o.index == idx)
    && (o.Failed? ==> IsPrefix(RowError(idx, title, ""), o.message))
  }

  /** `after` still holds every number `before` cached. */
  predicate CacheKeeps(before: Option<map<string, int>>, after: Option<map<string, int>>) {
    before.Some? ==> after.Some? && forall key :: key in before.value ==>
      key in after.value && after.value[key] == before.value[key]
  }

  lemma CacheKeepsTransitive(a: Option<map<string, int>>, b: Option<map<string, int>>, c: Option<map<string, int>>)
    requires CacheKeeps(a, b) && CacheKeeps(b, c)
    ensures CacheKeeps(a, c)
  {
  }

  /** The milestone step never forgets a cached number. */
  lemma CacheGrows(cache: Option<map<string, int>>, milestone: Option<string>,
                   noCreate: bool, dryRun: bool, replies: MilestoneReplies)
    ensures CacheKeeps(cache, ResolveMilestone(cache, milestone, noCreate, dryRun, replies).cache)
  {
  }

  /** `[(idx, str(number), url) ...]`: the created rows, in order. */
  function CreatedOf(os: seq<RowOutcome>): (r: seq<RowOutcome>)
    ensures |r| <= |os|
    ensures forall k :: 0 <= k < |r| ==> r[k].Created?
  {
    if os == [] then []
    else (if os[0].Created? then [os[0]] else []) + CreatedOf(os[1..])
  }

  /** The error messages, in order. */
  function ErrorsOf(os: seq<RowOutcome>): (r: seq<string>)
    ensures |r| <= |os|
  {
    if os == [] then []
    else (if os[0].Failed? then [os[0].message] else []) + ErrorsOf(os[1..])
  }

  /** Every row lands in exactly one of the two lists. */
  lemma {:induction false} Partition(os: seq<RowOutcome>)
    ensures |CreatedOf(os)| + |ErrorsOf(os)| == |os|
    ensures ErrorsOf(os) == [] <==> forall k :: 0 <= k < |os| ==> os[k].Created?
  {
    if os != [] {
      Partition(os[1..]);
      assert forall k :: 1 <= k < |os| ==> os[k] == os[1..][k - 1];
    }
  }

  // ---------------------------------------------------------------------
  // main
  // ---------------------------------------------------------------------

  /** What `main` does with the rows `read_csv` returned: the exit status
      and lists it reports, or the exception that escapes it. */
  datatype MainResult =
    | Finished(outcomes: seq<RowOutcome>, calls: seq<Call>, sleeps: seq<real>, exitCode: int)
    | Crashed(error: string)

  /** `ensure_labels` as `main` calls it: the calls it makes. */
  function LabelCalls(cfg: Config, toCreate: seq<string>): (cs: seq<Call>)
    ensures cfg.dryRun ==> cs == []
    ensures !cfg.dryRun ==> |cs| == |toCreate| && forall k :: 0 <= k < |cs| ==> cs[k] == CreateLabel(toCreate[k])
  {
    if cfg.dryRun then [] else seq(|toCreate|, k requires 0 <= k < |toCreate| => CreateLabel(toCreate[k]))
  }

  /** Lines 305-404 after the CSV is read. `labelListing` is the reply of
      `gh label list`, `replies[k]` the replies row `k + 1` meets. A failure
      of the label stage is not caught by `main` and ends the run. */
  function Main(cfg: Config, rows: seq<IssueRow>, labelListing: Reply<Value>, replies: seq<RowReplies>)
    : (r: MainResult)
    requires |replies| == |rows|
    requires EnoughAttempts(cfg, replies)
    ensures rows == [] ==> r == Finished([], [], [], 0)
    ensures r.Finished? ==> |r.outcomes| == |rows|
    ensures r.Finished? ==> (r.exitCode == 0 <==> ErrorsOf(r.outcomes) == [])
    ensures r.Finished? ==> r.exitCode == 0 || r.exitCode == 1
    ensures r.Crashed? ==> !cfg.noLabelCreate && rows != []
    ensures cfg.dryRun && r.Finished? ==> r.calls == [] && r.sleeps == []
  {
    if rows == [] then Finished([], [], [], 0)
    else
      var labels :=
        if cfg.noLabelCreate then Success([])
        else EnsureLabels(RepoFull(cfg), AllLabels(rows), labelListing);
      match labels
      case Failure(e) => Crashed(e)
      case Success(toCreate) =>
        var s := RunRows(cfg, None, 1, rows, replies);
        RunRowsDryRun(cfg, None, 1, rows, replies);
        var errors := ErrorsOf(s.outcomes);
        Finished(s.outcomes, LabelCalls(cfg, toCreate) + s.calls, s.sleeps, if errors == [] then 0 else 1)
  }

  /** Every row of the loop is reported under its own number, and lands in
      exactly one of the created and error lists. */
  lemma LoopAccounts(cfg: Config, rows: seq<IssueRow>, replies: seq<RowReplies>)
    requires |replies| == |rows|
    requires EnoughAttempts(cfg, replies)
    ensures var os := RunRows(cfg, None, 1, rows, replies).outcomes;
      && |CreatedOf(os)| + |ErrorsOf(os)| == |rows|
      && forall k :: 0 <= k < |rows| ==> OutcomeNamesRow(os[k], k + 1, rows[k].title)
  {
    var os := RunRows(cfg, None, 1, rows, replies).outcomes;
    Partition(os);
    RunRowsOutcome(cfg, None, 1, rows, replies);
    forall k | 0 <= k < |rows|
      ensures OutcomeNamesRow(os[k], k + 1, rows[k].title)
    {
      assert OutcomeNamesRow(os[k], 1 + k, rows[k].title);
    }
  }

  /** The run's bookkeeping: row `k + 1` is reported as created with its own
      number, or its error message names it; created and error entries
      together account for every row. */
  lemma MainAccounts(cfg: Config, rows: seq<IssueRow>, labelListing: Reply<Value>, replies: seq<RowReplies>)
    requires |replies| == |rows|
    requires EnoughAttempts(cfg, replies)
    requires Main(cfg, rows, labelListing, replies).Finished?
    ensures var os := Main(cfg, rows, labelListing, replies).outcomes;
      && |CreatedOf(os)| + |ErrorsOf(os)| == |rows|
      && forall k :: 0 <= k < |rows| ==> OutcomeNamesRow(os[k], k + 1, rows[k].title)
  {
    MainOutcomes(cfg, rows, labelListing, replies);
    LoopAccounts(cfg, rows, replies);
  }

  /** A finished run reports the outcomes of the row loop. */
  lemma MainOutcomes(cfg: Config, rows: seq<IssueRow>, labelListing: Reply<Value>, replies: seq<RowReplies>)
    requires |replies| == |rows|
    requires EnoughAttempts(cfg, replies)
    requires Main(cfg, rows, labelListing, replies).Finished?
    ensures Main(cfg, rows, labelListing, replies).outcomes == RunRows(cfg, None, 1, rows, replies).outcomes
  {
  }

  /** A label listing that fails ends the run before any row is imported,
      unless label creation is switched off or there is no label to create. */
  lemma LabelListingFailureCrashes(cfg: Config, rows: seq<IssueRow>, stderr: string, replies: seq<RowReplies>)
    requires |replies| == |rows|
    requires EnoughAttempts(cfg, replies)
    requires !cfg.noLabelCreate && exists i :: 0 <= i < |rows| && rows[i].labels != []
    ensures Main(cfg, rows, CommandFailed(stderr), replies).Crashed?
  {
    var i :| 0 <= i < |rows| && rows[i].labels != [];
    assert rows[i].labels[0] in rows[i].labels;
    AllLabelsMeans(rows, rows[i].labels[0]);
  }
}
