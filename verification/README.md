# gh-import-issues in Dafny

A model of the decision logic of `scripts/gh-import-issues.py`. The script
reads a CSV file of issues and creates them on GitHub through the `gh`
command-line tool. It can also create missing labels and milestones, add an
issue to a Projects v2 board, and close an issue. The model covers these
parts of the script:

- **Rows** (`rows.dfy`):
  - `split_list`;
  - the `IssueRow` record;
  - the per-row normalisation inside `read_csv`: header keys stripped and
    lower-cased, values stripped, rows without a title skipped and
    reported, blank rows ignored;
  - the `AttributeError` that ends `read_csv` at a line with more cells
    than headers.
- **ShellQuote** (`shellquote.dfy`):
  - `sh_quote` exactly as written;
  - the quoting it was evidently meant to do;
  - a POSIX reader of one shell word, so that both can be judged by what
    a shell reads back.
- **Payload** and **Json** (`payload.dfy`, `json.dfy`):
  - the issue payload `create_issue_via_api` builds;
  - its `json.dumps` text, with `ensure_ascii` escaping;
  - the text of the exception a failed POST raises, which embeds the
    title and the payload.
- **Retry** (`retry.dfy`): `create_issue_with_retry`.
  - Each attempt's outcome is an input.
  - The error text is classified as transient or not.
  - The sleeps are recorded with their exponential backoff.
- **Labels** (`labels.dfy`):
  - the sorted, de-duplicated label list `main` builds;
  - `get_existing_labels`;
  - the selection in `ensure_labels` of which labels to create.
- **Milestones** (`milestones.dfy`):
  - `get_milestones_map`, including the line-wise fallback for paginated
    output;
  - `ensure_milestone`;
  - the milestone-cache step of `main`'s row loop.
- **Driver** (`driver.dfy`):
  - `main` after the CSV is read: label pre-creation, then the row loop;
  - each row lands in exactly one of `created` or `errors`;
  - the exit status;
  - the repository-changing `gh` calls a run makes, so that a dry run can
    be shown to make none.

Every `gh` reply is an input to the model: the label listing, the milestone
listings and creation, one reply per POST attempt, and the failure text of
`gh project item-add` and `gh issue close`. Parsed JSON is the `Json.Value`
datatype. A parsed CSV row is the sequence of items of the dictionary
`csv.DictReader` yields (`Rows.RawEntry`). Each header comes with its cell,
or with `None` when the line ends early. A line with more cells than
headers also carries the surplus as a list under the key `None`.

## Model

| member | source | states |
|---|---|---|
| Rows.SplitList | scripts/gh-import-issues.py:77-82 | An empty cell gives no items; every item is non-empty, has no surrounding whitespace and contains no `;` |
| Rows.SplitListOrder | scripts/gh-import-issues.py:77-82 | The items are, in cell order, the stripped `;`-separated pieces that do not strip to nothing, each such piece giving exactly one item |
| Rows.SplitListMembers | scripts/gh-import-issues.py:77-82 | A string is an item exactly when it is non-empty and some `;`-separated piece of the cell strips to it |
| Rows.SplitListRoundTrip | scripts/gh-import-issues.py:77-82 | Joining well-formed items with `;` and splitting the cell again gives the same items in the same order |
| Text.SplitJoin | scripts/gh-import-issues.py:81 | `str.split` on a separator undoes joining pieces that do not contain it |
| Text.Strip | scripts/gh-import-issues.py:81 | The result is the input with its leading and trailing whitespace removed, where whitespace is Python's `str.isspace` set |
| Rows.KeyHasHeader | scripts/gh-import-issues.py:266 | Every key of the normalised row is the stripped, lower-cased form of some header |
| Rows.NormalizeKeysValue | scripts/gh-import-issues.py:266 | A key maps to the stripped value of the last column whose header normalises to it |
| Rows.ValuesStripped | scripts/gh-import-issues.py:266 | Every value of the normalised row has no surrounding whitespace |
| Rows.RowFromNorm | scripts/gh-import-issues.py:267-280 | No row exactly when the title cell is empty. Otherwise: the title and body are their cells; labels and assignees are `split_list` of their cells; milestone, project owner and close reason are their cells when non-empty; `project_number` is present exactly when the cell is all digits, and then equals their value; `state` is the lower-cased cell, or `open` when the cell is empty |
| Rows.OptCell | scripts/gh-import-issues.py:274-279 | `norm.get(key) or None`: present exactly when the cell is non-empty, and then equal to it |
| Rows.NormalizeRow | scripts/gh-import-issues.py:266-280 | Defined for rows whose values can all be stripped. The row is what `RowFromNorm` builds from the normalised dictionary: none exactly when the normalised title is empty. A row that is produced has a non-empty stripped title, list items as `split_list` gives them, stripped non-empty optional fields, and a non-empty lower-case state |
| Rows.NormalizeRowRoundTrip | scripts/gh-import-issues.py:266-280 | Writing a well-formed `IssueRow` under the canonical headers and normalising it again gives the same row |
| Rows.ParseRow | scripts/gh-import-issues.py:263-270 | A row is blank exactly when its dictionary is empty. It is fatal exactly when it is non-empty and holds surplus cells, which line 266 cannot strip. It lacks a title exactly when it is non-empty, strippable and normalises to nothing. Otherwise it yields its normalised row |
| Rows.Collect | scripts/gh-import-issues.py:262-281 | The loop raises `AttributeError` exactly when some row is fatal. Otherwise every input row is accounted for exactly once: returned, reported as skipped, or blank |
| Rows.CollectOrder | scripts/gh-import-issues.py:262-281 | The rows returned are the rows read, in input order |
| Rows.ReadCsvFails | scripts/gh-import-issues.py:262-266 | `read_csv` raises exactly when some line has more cells than headers, whatever the other rows |
| Rows.ReadCsvOrder | scripts/gh-import-issues.py:262-281 | After a successful read, the returned rows are, in input order, the normalisations of exactly the non-blank titled input rows, each once |
| Rows.ReadCsvRows | scripts/gh-import-issues.py:262-281 | After a successful read, every returned row has a title and is the normalisation of one of the input rows |
| Rows.ReadCsvSkipped | scripts/gh-import-issues.py:262-270 | After a successful read, every reported line number (counting from 2) names a non-empty input row without a title, and the numbers increase |
| Rows.ReadCsvReportsAll | scripts/gh-import-issues.py:263-270 | After a successful read, every non-empty row without a title is reported, under its line number |
| ShellQuote.ShQuote | scripts/gh-import-issues.py:248-253 | The empty string becomes `''`. A word of alphanumerics and `/._-=:,[]{}` is returned unchanged. Anything else is wrapped in single quotes, with each `'` replaced by three quote characters, as line 253 evaluates |
| ShellQuote.ShQuoteIntended | scripts/gh-import-issues.py:248-253 | The same quoting, with each `'` replaced by the four-character `'\''` |
| ShellQuote.IntendedRoundTrip | scripts/gh-import-issues.py:248-253 | A POSIX shell reads the intended quoting of any string back as exactly that string |
| ShellQuote.AsWrittenLosesQuotes | scripts/gh-import-issues.py:253 | For an argument with a single quote (and no backslash), the quoting as written is never read back as the argument. With an odd number of quotes the word is unterminated; otherwise the quotes are dropped |
| ShellQuote.ShQuoteIts | scripts/gh-import-issues.py:253 | `it's` is printed as `'it` followed by three quotes and `s'` |
| ShellQuote.AsWrittenExample | scripts/gh-import-issues.py:253 | The printed form of `it's` is rejected by a POSIX shell as an unterminated quote |
| Payload.BuildPayload | scripts/gh-import-issues.py:178-188 | `title` is always present. `body`, `labels` and `assignees` are present exactly when non-empty, and then equal the row's. `milestone` is present exactly when the number is given and positive, and then equals it |
| Json.Escape | scripts/gh-import-issues.py:196 | `json.dumps` string escaping gives printable ASCII only, and leaves plain text unchanged |
| Json.EscapeRoundTrip | scripts/gh-import-issues.py:196 | JSON-unescaping the escaped text gives back the original string, astral characters included (as surrogate pairs) |
| Payload.DumpsPrintable | scripts/gh-import-issues.py:196 | The JSON text of any payload is printable ASCII, so it encodes to UTF-8 byte for byte |
| Payload.CreationError | scripts/gh-import-issues.py:198-199 | The exception text of a failed POST contains the issue title, `gh`'s stderr and the JSON text of the payload |
| Retry.IsTransientMeans | scripts/gh-import-issues.py:212-214 | An error is transient exactly when its lower-cased text contains one of the eight tokens, anywhere |
| Retry.AttemptResult | scripts/gh-import-issues.py:195-201 | A reply gives the number and URL. A failed command gives an error containing the title, the stderr and the JSON payload. An unreadable reply gives its own error |
| Retry.AttemptBudget | scripts/gh-import-issues.py:206-216 | The loop allows exactly `retries` attempts when `retries` is at least 1, and exactly one otherwise |
| Retry.AttemptsFrom | scripts/gh-import-issues.py:206-219 | From a given attempt: every attempt before the last failed transiently; the last one's outcome is the result; a final failure is non-transient or the budget is used up; the sleeps follow the backoff |
| Retry.CreateWithRetry | scripts/gh-import-issues.py:204-219 | A dry run returns `(-1, "DRY-RUN")` with no attempt or sleep. Otherwise 1 to `retries` attempts, one sleep between consecutive attempts, and the same stopping facts as above |
| Retry.BackoffFormula | scripts/gh-import-issues.py:217 | The sleep after failed attempt `k + 1` is `base * 2^k` |
| Retry.FirstSuccessReturned | scripts/gh-import-issues.py:207-219 | If attempt `n` succeeds after `n - 1` transient failures, exactly `n` attempts are made, its result is returned, and the sleeps double from `base` |
| Retry.AllTransientExhausts | scripts/gh-import-issues.py:211-216 | When every attempt fails transiently, the whole budget is used and the last error is raised |
| Retry.TitleMarksTransient | scripts/gh-import-issues.py:199-214 | A title containing `500` makes every failed POST transient, whatever `gh` reported |
| Retry.StderrMarksTransient | scripts/gh-import-issues.py:199-214 | A failed POST whose stderr is transient is itself transient, so it is retried while the budget lasts |
| Labels.Insert | scripts/gh-import-issues.py:312 | Inserting into a strictly sorted list keeps it strictly sorted and adds exactly that element |
| Labels.SortedUnique | scripts/gh-import-issues.py:312 | Two strictly sorted lists with the same elements are equal, so `sorted(set(...))` is well defined |
| Labels.AllLabels | scripts/gh-import-issues.py:312 | The label list is strictly sorted by code point and holds exactly the labels of all rows |
| Labels.AllLabelsMeans | scripts/gh-import-issues.py:312 | A label is in the list exactly when some row has it, and no label appears twice |
| Labels.ExistingLabelNames | scripts/gh-import-issues.py:108-113 | A listing that is not a list gives no names |
| Labels.ExistingLabelNamesOrder | scripts/gh-import-issues.py:108-113 | For a list, the names are, in order, one per object item: its `name` member, or `""` when it has none; other items give nothing |
| Labels.LowerNames | scripts/gh-import-issues.py:119 | The lower-cased name set exists exactly when every name is a string, where Python otherwise raises |
| Labels.LowerNamesMeans | scripts/gh-import-issues.py:119 | The set holds exactly the lower-cased listed names |
| Labels.LabelsToCreate | scripts/gh-import-issues.py:120-122 | A label is chosen exactly when it is requested and its lower-cased form is not among the existing names |
| Labels.LabelsToCreateIdempotent | scripts/gh-import-issues.py:116-129 | Once the chosen labels exist, choosing again chooses nothing |
| Labels.CaseInsensitiveMatch | scripts/gh-import-issues.py:119-122 | A label that differs from an existing name only in ASCII case is never chosen |
| Labels.EnsureLabels | scripts/gh-import-issues.py:116-129 | An empty request returns at once. A failed or unreadable listing raises its error, and so does a non-string name. Every chosen label was requested |
| Labels.EnsureLabelsChooses | scripts/gh-import-issues.py:116-122 | After a good listing, exactly the requested labels that no listed name matches case-insensitively are chosen |
| Milestones.Entry | scripts/gh-import-issues.py:155-156 | An item contributes an entry exactly when it is an object with a string `title` and an integer `number`; the entry maps the lower-cased title to the number |
| Milestones.MilestonesMap | scripts/gh-import-issues.py:152-157 | Every key of the map is lower-case |
| Milestones.MilestonesMapKeys | scripts/gh-import-issues.py:152-157 | A title is a key exactly when some item contributes it |
| Milestones.MilestonesMapLast | scripts/gh-import-issues.py:153-156 | The number under a key is that of the last item contributing the key |
| Milestones.MilestonesMapAppend | scripts/gh-import-issues.py:149-157 | The map of concatenated item lists is the first map overridden by the second |
| Milestones.PagesMerge | scripts/gh-import-issues.py:140-151 | Reading paginated output line by line gives the same map as one concatenated list |
| Milestones.GetMilestonesMap | scripts/gh-import-issues.py:132-157 | A failed listing raises `Failed to list milestones: ` plus stderr. Otherwise the result is the map of the listed items |
| Milestones.EnsureMilestone | scripts/gh-import-issues.py:160-175 | Raises the listing's failure. Returns the existing number for the lower-cased title. If the title is missing: a dry run returns -1; otherwise the created number is returned, or the creation error is raised |
| Milestones.LoadedCache | scripts/gh-import-issues.py:346-347 | A held cache is used as it is; otherwise the map is fetched |
| Milestones.ResolveMilestone | scripts/gh-import-issues.py:344-356 | No milestone: nothing changes. An existing key: the cache is kept and its number attached. A missing key under `--no-milestone-create`: the cache is kept and nothing is attached. Otherwise the cache gains at most that one key, with a positive number |
| Milestones.ResolveMissing | scripts/gh-import-issues.py:349-356 | For a missing key, only a positive created number is cached and attached. The dry-run -1 changes nothing. A creation error leaves the cache alone and fails the row |
| Milestones.DryRunCreatesNoMilestone | scripts/gh-import-issues.py:165-168 | A dry run never creates a milestone |
| Milestones.ResolveCaseInsensitive | scripts/gh-import-issues.py:348-356 | Two milestone names equal up to ASCII case resolve alike: same cache, same creation, same number |
| Driver.RetriesOption | scripts/gh-import-issues.py:364 | The retry count passed on is the option, or 1 when the option is below 1 |
| Driver.BaseDelayOption | scripts/gh-import-issues.py:365 | The base delay passed on is the option, or 0.1 when the option is below 0.1 |
| Driver.CloseReason | scripts/gh-import-issues.py:237-238 | `--reason` is passed exactly when the reason is non-empty |
| Driver.FinishRow | scripts/gh-import-issues.py:371-379 | In a dry run the row is created. Otherwise it is created exactly when neither the project step nor the close step failed, and a created row records its index, number and URL |
| Driver.RunRow | scripts/gh-import-issues.py:340-387 | The outcome names the row: a created entry carries its index; an error message starts with `Row <idx> ('<title>') failed: `. The cache is the milestone step's. A dry run makes no call and no sleep |
| Driver.RunRowCreated | scripts/gh-import-issues.py:343-385 | A row is created exactly when its milestone step succeeds, issue creation succeeds, and (outside a dry run) neither the project add nor the close fails |
| Driver.RunRows | scripts/gh-import-issues.py:340-387 | The loop gives one outcome per row |
| Driver.RunRowsOutcome | scripts/gh-import-issues.py:379-385 | For every position `k`, the loop's outcome names row number `idx + k` and its title: a created entry carries that index, an error message starts with `Row <idx + k> ('<title>') failed: ` |
| Driver.RunRowsDryRun | scripts/gh-import-issues.py:340-387 | A dry run of the loop makes no call and takes no sleep |
| Driver.RunRowsCache | scripts/gh-import-issues.py:344-356 | The loop never forgets or changes a cached milestone number |
| Driver.CacheGrows | scripts/gh-import-issues.py:344-356 | One milestone step never forgets or changes a cached number |
| Driver.Partition | scripts/gh-import-issues.py:379-403 | Each outcome lands in exactly one of `created` and `errors`; `errors` is empty exactly when every row was created |
| Driver.LabelCalls | scripts/gh-import-issues.py:123-126 | A dry run creates no label; otherwise one `gh label create` per chosen label, in order |
| Driver.Main | scripts/gh-import-issues.py:305-404 | No rows: exit 0 with nothing done. A finished run has one outcome per row and exits 0 exactly when there are no errors, else 1. Only the label stage can crash the run. A dry run makes no call and takes no sleep |
| Driver.LoopAccounts | scripts/gh-import-issues.py:340-387 | Every row of the loop is counted once in `created` or `errors`, under its own number |
| Driver.MainAccounts | scripts/gh-import-issues.py:305-404 | The same holds for a finished run of `main` |
| Driver.LabelListingFailureCrashes | scripts/gh-import-issues.py:311-313 | If some row has labels and label creation is on, a failed `gh label list` ends `main` with the exception |
| Text.NatToStringRoundTrip | scripts/gh-import-issues.py:379-383 | The decimal text of a row index reads back as that index |
| Text.ContainsLower | scripts/gh-import-issues.py:212 | A substring stays a substring after both are lower-cased |

Where the source differs from the script's documented behaviour, the model
follows the source:

- A failed `gh label list` is not treated as "no labels". `gh_json` raises,
  `main` does not catch it, and the run ends (`Driver.LabelListingFailureCrashes`).
- `state` is not restricted to `open` and `closed`. Any other value is kept
  lower-cased, and the issue is simply not closed.
- `created.append` comes after the project and close steps (line 379). A row
  whose close fails is therefore only in `errors`, never in `created`.
- The `dry_run` test at line 215 never fires. In a dry run,
  `create_issue_via_api` returns before it can raise, so `Retry.CreateWithRetry`
  returns the dry-run result with no attempt.

## Left out

- Process I/O: `run`, `gh_json`, `subprocess`, the `gh` invocations, and `ensure_repo_name_with_owner`. Their replies are inputs, and the mutating calls are recorded as `Driver.Call` values.
- `main` before the CSV is read: argument parsing, the CSV-exists check and exit code 2, and the `owner/name` split of `--repo` (the owner and name arrive split in `Driver.Config`).
- Printing: the progress bar, the summary lines, the dry-run messages, the `WARN:` line for a failed label creation (its failure changes nothing else), and the `KeyboardInterrupt` exit 130.
- `time.sleep` and `--delay`. Retry sleeps are recorded as values; the inter-row delay is not modelled, since it changes no outcome.
- The JSON and CSV parsers. `json.loads` output is a `Json.Value`, and a `csv.DictReader` row is a sequence of `Rows.RawEntry` items. BOM stripping and quoting rules are not modelled.
- The dry-run printing of `add_issue_to_project_v2` and `close_issue` through `sh_quote`. `ShellQuote` models the quoting itself; the printed command lines are not modelled.
- `ShellQuote.ReadWord` reads one word of POSIX shell quoting (single quotes and backslash escapes only). Double quotes, `$` expansion, brace expansion and globbing are not modelled.
- `Retry.BackoffFormula` uses exact real arithmetic. Floating-point rounding of `retry_base_delay * 2 ** k` is not modelled.
- `Text.Lower`, `Text.IsAlnum` and `Text.IsDigits` act on ASCII letters and digits only. Python's `str.lower`, `str.isalnum` and `str.isdigit` also act on other Unicode letters and digits.
- Rows.RowFromNorm: a `project_number` cell of non-ASCII digits has no number in the model. Python keeps decimal digits of any script (`int("１２")` is 12). It raises `ValueError` in `int()` for other digits that `isdigit` accepts, such as `²`.
- `Labels.LowerNames`: on a non-string name the model returns a fixed `TypeError` text, not Python's exact message.
- Milestones.Entry: titles that are not strings (`str(m["title"])` on a number) and `int()` of a non-integer number (a JSON float, which `Json.Value` decodes as `Null`) are not modelled. Such items contribute nothing, where Python would stringify the title, convert a numeric string, or raise.
- Driver.RunRow: a reply to the milestone POST or the issue POST that lacks `number` or `html_url` is modelled as a failed attempt with its error text, not as Python's exact `KeyError` or `TypeError` message.

## Findings

| source | as written | input that shows it | evidently intended | confidence | as-written member | corrected member |
|---|---|---|---|---|---|---|
| scripts/gh-import-issues.py:253 | Each `'` is replaced by three quote characters: in a Python string literal, `\'` is just `'` | `it's` is printed as `'it'''s'`, which a POSIX shell rejects as an unterminated quote. An argument with two quotes loses both | Each `'` is replaced by the four characters `'\''` (close the quote, escaped quote, reopen), which reads back as the original argument | not executed | ShellQuote.AsWrittenLosesQuotes | ShellQuote.IntendedRoundTrip |
