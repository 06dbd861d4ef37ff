# Stargazer loader: a verified model

This project models the extraction core of `github_stargazers_loader.py`. The loader reads
the stargazers of a configured list of GitHub repositories through the GraphQL API and streams
them to a dlt pipeline. The pieces modelled are these:

- **Timestamps** (`timestamps.dfy`). `parse_github_ts` rewrites a trailing `Z` to `+00:00` and
  hands the string to `datetime.fromisoformat`. Python's `<=` on datetimes raises `TypeError` when
  one side is naive and the other aware. A datetime is a wall-clock count plus an optional UTC
  offset. `fromisoformat` is a parameter of type `string -> Option<DateTime>`, and `None` stands
  for its `ValueError`.
- **Watermarks** (`watermarks.dfy`). `get_repo_watermarks` folds the rows of the max-per-repository
  query into a map. A null is skipped, a string is parsed, a naive value is tagged UTC and an
  aware one is converted to UTC. The query itself is an input: it either raised or returned rows.
- **The pagination worker** (`fetcher.dfy`). `fetch_repo_to_queue` is written as an imperative
  cursor loop over the class `MessageQueue`. The remote API is a finite sequence of responses, and
  the k-th response answers the k-th request. A request beyond the end of the sequence gets no
  answer, which the worker sees as its 30-second timeout (a transport failure).
  - The method is proved equal to the function `Fetch`. `Fetch` gives the rows put, the cursor of
    every request and the outcome.
  - Lemmas about `Fetch` state the watermark stop rule, the cursor discipline, the counters and
    the abort on an error.
- **The worker wrapper** (`coordinator.dfy`).
  - `worker_wrapper` splits the slug and looks up the watermark, in incremental mode only.
  - It runs the fetch against a local metrics table and merges that table on success.
  - On failure it puts an error message, and in its `finally` it puts a done message.
  - `coordinator.dfy` also holds the worker-count default and the sort direction of the query.
- **The drain loop** (`drain.dfy`, `interleaving.dfy`).
  - The consumer takes messages off the queue until it has seen one done message per repository.
    It yields the rows and raises on the first error message.
  - The workers run concurrently, so the queue holds an arbitrary interleaving of the workers'
    streams that keeps each worker's own order.
  - Every theorem about the drain holds for every such interleaving.
  - A `q.get()` that would wait for ever is reported as `Blocked`.
- **The metrics report** (`report.dfy`). The report prints one line per repository that finished,
  in `sorted` order of the names.

Data messages, done messages and error messages are the variants of `Message`. They stand for
the row dictionaries and for the tuples that the loader marks with its two sentinel objects.

## Model

| member | source | states |
|---|---|---|
| Timestamps.RewriteZ | github_stargazers_loader.py:23-24 | A string ending in `Z` becomes the same prefix followed by `+00:00`. Any other string is unchanged. The result never ends in `Z`. |
| Timestamps.RewriteZIdempotent | github_stargazers_loader.py:23-24 | Rewriting a second time changes nothing. |
| Timestamps.RewriteZIdentifiesZuluWithZeroOffset | github_stargazers_loader.py:23-24 | `prefix + "Z"` and `prefix + "+00:00"` reach the parser as the same string. |
| Timestamps.ParseGithubTs | github_stargazers_loader.py:21-25 | The result is Ok exactly when the parser accepts the rewritten string, and then it is the parser's value. Otherwise it is the parser's ValueError. |
| Timestamps.ParseGithubTsZulu | github_stargazers_loader.py:21-25 | A `Z` time parses like its `+00:00` spelling. Any other text reaches the parser unchanged. |
| Timestamps.ReplaceWithUtc | github_stargazers_loader.py:61-62 | `replace(tzinfo=utc)` tags the value UTC and keeps the wall clock. |
| Timestamps.AsTimezoneUtc | github_stargazers_loader.py:63-64 | `astimezone(utc)` gives a UTC value with the same instant. |
| Timestamps.LessOrEqual | github_stargazers_loader.py:120 | Python's `<=` raises exactly when one side is naive and the other aware. Two aware values compare by instant, two naive ones by wall clock. |
| Timestamps.ComparisonIgnoresOffset | github_stargazers_loader.py:120 | Converting an aware watermark to UTC changes no comparison with it. |
| Timestamps.NaiveWatermarkComparison | github_stargazers_loader.py:120 | An aware edge time compared with a naive watermark raises. Once the watermark is tagged UTC, the comparison is between the instant and the wall clock. |
| Watermarks.StampToUtc | github_stargazers_loader.py:59-64 | A typed maximum becomes UTC. A naive one keeps its wall clock and an aware one keeps its instant. |
| Watermarks.Collect | github_stargazers_loader.py:52-65 | The `for` loop over the rows, later rows overwriting earlier ones and the first exception ending it. It is characterised by `CollectKeys`, `CollectFails`, `CollectValue`, `CollectUntouched` and `CollectAllUtc`, and `GetRepoWatermarks` is proved equal to it. |
| Watermarks.NormalizeCell | github_stargazers_loader.py:53-64 | A cell is skipped exactly when it is null. Only a string cell can raise, and only when it does not parse. A typed cell gives its UTC value. |
| Watermarks.WatermarksWith | github_stargazers_loader.py:45-50 | A query that raised gives the empty map. |
| Watermarks.GetRepoWatermarks | github_stargazers_loader.py:32-67 | The loop over the rows computes the fold of the rows, with strings treated as written. |
| Watermarks.CollectKeys | github_stargazers_loader.py:52-65 | When the fold succeeds, a repository has a watermark exactly when it held one before or some row for it has a non-null maximum. |
| Watermarks.CollectFails | github_stargazers_loader.py:57-58 | The fold raises exactly when some string maximum does not parse. |
| Watermarks.CollectValue | github_stargazers_loader.py:53-65 | A repository named in exactly one row, with a non-null maximum, gets that row's normalised value. |
| Watermarks.CollectUntouched | github_stargazers_loader.py:53-65 | A repository that no row names keeps the value it had before. |
| Watermarks.CollectAllUtc | github_stargazers_loader.py:59-65 | When the cells are typed, or strings are normalised, every value in the map is UTC. |
| Watermarks.WatermarkKeysAndFailures | github_stargazers_loader.py:45-67 | For the rows of a query: the result is an error exactly when some string does not parse. Otherwise the map's keys are the repositories with a non-null maximum. |
| Watermarks.TypedWatermarksAreUtc | github_stargazers_loader.py:59-65 | Without string cells every watermark is UTC. A repository named in exactly one row, with a typed maximum, keeps that maximum's wall clock if it was naive and its instant if it was aware. |
| Watermarks.TextWatermarkStaysNaive | github_stargazers_loader.py:57-58 | As written, a string maximum without an offset gives a naive watermark. The worker's comparison with an aware edge time then raises. |
| Watermarks.NormalisedWatermarksAreUtc | github_stargazers_loader.py:53-65 | With strings normalised like typed values, every watermark is UTC. |
| Watermarks.NormalisedRepresentationsAgree | github_stargazers_loader.py:56-64 | With strings normalised, a string maximum gives the same watermark as the typed value it parses to. |
| Records.DataMessages | github_stargazers_loader.py:127-135 | Each row becomes one data message, in order. |
| Records.DataMessagesConcat | github_stargazers_loader.py:127-135 | Putting two runs of rows is putting their concatenation. |
| Records.DataRowsOfDataMessages | github_stargazers_loader.py:261 | The rows come back out of their messages unchanged and in order. |
| Records.DataRowsConcat | github_stargazers_loader.py:261 | The rows of two runs of messages are the rows of each, concatenated. |
| Records.DoneCountConcat | github_stargazers_loader.py:249-250 | Done messages of two runs add up. |
| Records.WellFormedPrefix | github_stargazers_loader.py:230-232 | A worker's stream holds exactly one done message, at its end. Every proper prefix holds none. |
| Records.WellFormedErrorAt | github_stargazers_loader.py:227-232 | In a worker's stream an error can only come just before the done message. |
| SharedState.MessageQueue.Put | github_stargazers_loader.py:127 | `q.put` appends one message. |
| SharedState.MetricsTable.Set | github_stargazers_loader.py:147-151 | `metrics[key] = value` updates that key only. |
| SharedState.MetricsTable.Update | github_stargazers_loader.py:225-226 | `metrics.update(local)`: on a shared key the local entry wins. |
| Fetcher.RowsOf | github_stargazers_loader.py:127-135 | Each edge gives one row, carrying the repository name, the login, the user id, the raw `starredAt` string and `extracted_at`. |
| Fetcher.EdgeVerdict | github_stargazers_loader.py:115-125 | What the body does with one edge: parse, then under an active watermark stop on `<=`, or raise. It is characterised by `EdgeVerdictMeaning`. |
| Fetcher.ScanEdges | github_stargazers_loader.py:114-136 | The edge loop of one page: rows put, whether it stopped at the watermark, what it raised. It is characterised by `ScanEdgesMeaning`, `ScanDetermined` and `ScanWithoutWatermark`, and `PutPageRows` is proved equal to it. |
| Fetcher.EdgeVerdictMeaning | github_stargazers_loader.py:114-125 | An edge stops the page only under an active watermark. Under one, it is put exactly when its time parses and is strictly after the watermark. Otherwise it is put exactly when its time parses. |
| Fetcher.ScanEdgesMeaning | github_stargazers_loader.py:114-136 | The rows put are those of the longest prefix of edges to put. The first other edge either stops the page or raises, never both. A page neither stopped nor raised has put every edge. |
| Fetcher.ScanDetermined | github_stargazers_loader.py:114-136 | Where the first edge not put stands fixes the rows, the stop and the failure. |
| Fetcher.ScanWithoutWatermark | github_stargazers_loader.py:119-120 | Without an active watermark a page never stops early. When every time parses, it puts every edge. |
| Fetcher.PassOn | github_stargazers_loader.py:98-144 | One pass of the `while True` body on one response. It is characterised by `PassMeaning`, and `RunPass` is proved equal to it. |
| Fetcher.LoopFrom | github_stargazers_loader.py:97-144 | The loop over the passes with its cursor and counters. It is characterised by `LoopRequests`, `LoopRequestAt`, `LoopRows` and `LoopOutcome`. |
| Fetcher.Fetch | github_stargazers_loader.py:70-151 | A whole worker run: rows, request cursors and outcome. It is characterised by `FetchRequests`, `FetchRows`, `FetchOutcomeAndMetrics`, `FetchRowsAfterWatermark`, `FetchStopsAtWatermark` and the other lemmas named `Fetch…` below, and `FetchRepoToQueue` is proved equal to it. |
| Fetcher.PassOfRequest | github_stargazers_loader.py:97-108 | Request k is handled on response k. A request past the end of the sequence is handled as the timeout. |
| Fetcher.PassMeaning | github_stargazers_loader.py:100-144 | A pass counts a page exactly on repository data. It continues exactly after an uncut page whose `pageInfo` has `hasNextPage`, handing on `endCursor` after putting every edge. It raises exactly what the response makes it raise, including a missing `pageInfo` after the page's rows. Otherwise it breaks, with stop reason 1 exactly at the watermark. |
| Fetcher.LoopRequests | github_stargazers_loader.py:97-144 | The loop's first request uses the cursor it starts with. At most one request goes past the given responses. The pass of the last request does not continue. |
| Fetcher.LoopRows | github_stargazers_loader.py:114-136 | The loop's rows are those of its passes, in order. |
| Fetcher.LoopOutcome | github_stargazers_loader.py:106-151 | The loop raises what its last pass raises. Otherwise its metrics count the pages read, the rows put and the last pass's stop reason. |
| Fetcher.FetchRequests | github_stargazers_loader.py:97-144 | The first request has no cursor. Each later request uses the `endCursor` of a page that let the loop go on. The response to the last request does not. |
| Fetcher.FetchRows | github_stargazers_loader.py:114-136 | The rows are every edge of the pages before the last request, then the scanned prefix of the last page. |
| Fetcher.FetchOutcomeAndMetrics | github_stargazers_loader.py:106-151 | The run raises exactly what its last response makes it raise. On a normal return, `pages` counts the requests except a final one without repository data. `yielded` is the number of rows put. The stop reason is 1 exactly when the last page was cut at the watermark. |
| Fetcher.FetchWithoutWatermarkPaginates | github_stargazers_loader.py:114-144 | In backfill, or without a watermark, with every time parsing, the next page is requested exactly while `hasNextPage` is true. The stop reason stays 0. |
| Fetcher.FetchWithoutWatermarkPutsEverything | github_stargazers_loader.py:114-144 | In backfill, or without a watermark, with every time parsing, every edge of every answered page is put, in page order. |
| Fetcher.FetchRowsAfterWatermark | github_stargazers_loader.py:119-125 | In incremental mode with a watermark, every row put has a `starred_at` strictly after it. |
| Fetcher.FetchStopsAtWatermark | github_stargazers_loader.py:119-139 | At the first edge at or below the watermark, the run ends with stop reason 1 and requests no further page. It has put exactly the earlier pages' rows and that page's earlier edges. |
| Fetcher.FetchErrorPayload | github_stargazers_loader.py:100-104 | A response with `errors` raises before any of its rows is put. The rows of earlier pages stay on the queue. |
| Fetcher.FetchMissingPageInfo | github_stargazers_loader.py:114-142 | A page without `pageInfo`, not cut at the watermark, has every edge put before the `pageInfo` lookup raises. No further page is requested, and the rows of earlier pages stay on the queue. |
| Fetcher.StoppedNeedsWatermark | github_stargazers_loader.py:119-125 | Only an active watermark cuts a page. |
| Fetcher.PutPageRows | github_stargazers_loader.py:114-136 | The edge loop puts the scanned rows on the queue and reports the stop or the exception it met. |
| Fetcher.RunPass | github_stargazers_loader.py:98-144 | One pass of the `while True` body puts its rows and ends as the pass function says. |
| Fetcher.FetchRepoToQueue | github_stargazers_loader.py:70-151 | The worker sends `Fetch`'s requests, puts its rows on the queue as it goes and ends with its outcome. The metrics entry is written only on a normal return. |
| Coordinator.FirstSlash | github_stargazers_loader.py:206 | The position of the first '/'. |
| Coordinator.SplitSlug | github_stargazers_loader.py:206-207 | `split("/", 1)` fails exactly on a slug without '/'. Otherwise the owner has no '/' and owner + "/" + repo is the slug again. |
| Coordinator.FullName | github_stargazers_loader.py:207 | The `f"{owner}/{repo}"` full name. `SplitSlug` and `SplitFullName` relate it to the slug split. |
| Coordinator.SplitFullName | github_stargazers_loader.py:206-207 | Splitting a name built from an owner without '/' gives back the owner and the repository. |
| Coordinator.WorkerConfig | github_stargazers_loader.py:214-224 | The arguments the wrapper passes to the fetch: the full name, the mode, the looked-up watermark, the parser and `extracted_at`. It is characterised by `WorkerWatermark`. |
| Coordinator.WatermarkFor | github_stargazers_loader.py:208 | The watermark lookup, in incremental mode only. It is characterised by `WorkerWatermark`. |
| Coordinator.WorkerWatermark | github_stargazers_loader.py:208 | A worker's watermark is active exactly in incremental mode when the table holds one for its repository, and then it is that value. |
| Coordinator.WorkerWrapper | github_stargazers_loader.py:205-232 | The split's ValueError escapes exactly when the slug has no '/'. Otherwise the wrapper puts the fetch's rows, an error message if it raised, and one done message. Metrics are merged only on success. |
| Coordinator.FetchStream | github_stargazers_loader.py:213-232 | The fetch's rows, an error message if it raised, then the done message. It is characterised by `FetchStreamWellFormed`. |
| Coordinator.WrapperStream | github_stargazers_loader.py:205-232 | Everything the wrapper puts as written, nothing for a slug without '/'. `WorkerWrapper` is proved to put it, and `WrapperStreamAsWritten` characterises it. |
| Coordinator.WrapperMetrics | github_stargazers_loader.py:211-226 | The metrics after the wrapper: the fetch's entry merged only when it finished. `WorkerWrapper` is proved to leave it. |
| Coordinator.WrapperStreamCorrected | github_stargazers_loader.py:205-232 | The wrapper with the split inside the `try`. It is characterised by `CorrectedStreamMeaning`. |
| Coordinator.FetchStreamWellFormed | github_stargazers_loader.py:213-232 | After a fetch the wrapper's stream ends in its one done message. It holds an error exactly when the fetch raised, and its rows are the fetch's rows. |
| Coordinator.CorrectedStreamMeaning | github_stargazers_loader.py:205-232 | With the split inside the `try`, every stream is well formed. It is error-free exactly when the worker succeeds, and it carries the fetch's rows. |
| Coordinator.WrapperStreamAsWritten | github_stargazers_loader.py:206 | As written, a slug without '/' puts nothing at all. Any other slug puts the corrected, well-formed stream. |
| Coordinator.WorkerCount | github_stargazers_loader.py:235-238 | `max_workers or min(len(repos), 5)` with the pool's check. It is characterised by `WorkerCountChoice`. |
| Coordinator.WorkerCountCorrected | github_stargazers_loader.py:235-238 | The default with at least one worker. It is characterised by `WorkerCountCorrectedChoice`. |
| Coordinator.WorkerCountChoice | github_stargazers_loader.py:235-238 | A positive explicit count is used and a negative one is refused. The default is the number of repositories capped at 5. The pool refuses the default exactly when there are no repositories. |
| Coordinator.WorkerCountCorrectedChoice | github_stargazers_loader.py:235-238 | The corrected default is always an accepted count from 1 to 5. It agrees with the default as written whenever a repository is configured. |
| Coordinator.Direction | github_stargazers_loader.py:176 | Backfill sorts the query oldest first. Every other mode, incremental included, sorts newest first. |
| Draining.Drain | github_stargazers_loader.py:245-261 | The drain over the queue's contents while done messages are awaited. It is characterised by `DrainStep`, `DrainCompletes`, `DrainRaises` and `DrainBlocks`, and `DrainLoop` is proved equal to it. |
| Draining.DrainStep | github_stargazers_loader.py:245-261 | One message taken: a done message awaits one fewer, an error raises, a row is yielded ahead of the rest. |
| Draining.DrainLoop | github_stargazers_loader.py:241-261 | The `while done_count < total_repos` loop yields and ends exactly as the drain function does. |
| Draining.DrainCompletes | github_stargazers_loader.py:245-261 | Without errors, a queue ending in a done message completes when all its done messages are awaited. It yields every row in queue order. |
| Draining.DrainRaises | github_stargazers_loader.py:253-258 | The first error, reached before enough done messages, raises for its repository and cause after the rows before it. |
| Draining.DrainBlocks | github_stargazers_loader.py:245-246 | Without errors and with too few done messages, the drain yields every row and then waits for ever. |
| Interleaving.Messages | github_stargazers_loader.py:246 | The queue holds the interleaved puts' messages, in order. |
| Interleaving.DoneCountSplits | github_stargazers_loader.py:249-250 | The done messages on the queue are the sum of each worker's. |
| Interleaving.NoErrorSplits | github_stargazers_loader.py:253-258 | The queue holds no error exactly when no worker's stream does. |
| Interleaving.ProjectPrefix | github_stargazers_loader.py:229-232 | What a worker has put by any point is a prefix of all it puts. |
| Interleaving.FirstError | github_stargazers_loader.py:253-258 | The first error on the queue has no error before it. |
| Interleaving.InterleavedErrorRaises | github_stargazers_loader.py:245-258 | With well-formed streams, the first error on the queue is raised however the streams interleave. Its worker's done message is still to come. |
| Interleaving.InterleavedCompletes | github_stargazers_loader.py:245-261 | With well-formed streams and no error, the drain completes with every row on the queue. |
| Interleaving.WellFormedStreamsDrain | github_stargazers_loader.py:245-261 | With well-formed streams the drain either raises the first error or completes with every row. |
| Interleaving.StreamsOutcome | github_stargazers_loader.py:245-261 | With well-formed streams the drain never blocks. It completes exactly when no stream holds an error, and then it yields every row. |
| Interleaving.StreamsBlock | github_stargazers_loader.py:245-246 | If one worker puts nothing and no error is on the queue, the drain yields every row and waits for ever. |
| Interleaving.CorrectedStreams | github_stargazers_loader.py:239 | One corrected wrapper stream per configured repository. |
| Interleaving.CorrectedStreamsDrain | github_stargazers_loader.py:245-261 | With the corrected wrapper, the drain over any interleaving never waits for ever on `q.get()`. It completes exactly when every worker succeeds, and then it yields every row put. |
| Interleaving.RunWith | github_stargazers_loader.py:235-261 | A whole run: the pool refuses a worker count of 0 or less before any worker starts, and otherwise the queue is drained. |
| Interleaving.CorrectedRunOutcome | github_stargazers_loader.py:205-261 | With the corrected wrapper and the corrected worker-count default, the pool refuses only an explicit negative count, so a run over no repositories completes at once. Otherwise the drain over any interleaving never waits for ever on `q.get()`: it completes exactly when every worker succeeds, and then it yields every row put. |
| Interleaving.EmptyConfigurationRun | github_stargazers_loader.py:235-238 | As written, a run over no repositories with the default count fails at the pool's creation. With the corrected default it completes at once and yields nothing. |
| Interleaving.AsWrittenStreams | github_stargazers_loader.py:239 | One as-written wrapper stream per configured repository. |
| Interleaving.AsWrittenAgreesOnWellFormedSlugs | github_stargazers_loader.py:206 | When every slug has a '/', the as-written wrappers send the corrected streams, so the drain outcome of `CorrectedStreamsDrain` holds for the streams as written. With the default worker count, a run over no repositories still fails earlier, when the pool is created (`EmptyConfigurationRun`). |
| Interleaving.AsWrittenMalformedSlugBlocks | github_stargazers_loader.py:206-246 | As written, one slug without '/' and no error on the queue make the drain wait for ever after yielding every row. |
| Interleaving.AsWrittenSingleMalformedSlug | github_stargazers_loader.py:206-246 | A run over the single repository "octocat" puts nothing, and the drain waits for ever. |
| Report.Below | github_stargazers_loader.py:270 | Python's `<` on `str`, the order of `sorted`. It is characterised by `BelowIrreflexive`, `BelowTransitive` and `BelowTotal`. |
| Report.BelowIrreflexive | github_stargazers_loader.py:270 | Python's string `<` is irreflexive. |
| Report.BelowTransitive | github_stargazers_loader.py:270 | Python's string `<` is transitive. |
| Report.BelowTotal | github_stargazers_loader.py:270 | Python's string `<` orders any two different names. |
| Report.Insert | github_stargazers_loader.py:270 | Putting a new name into a sorted list keeps it sorted and adds exactly that name. |
| Report.SortedKeys | github_stargazers_loader.py:270 | `sorted(metrics.keys())` lists every key once, in increasing order. |
| Report.LineOf | github_stargazers_loader.py:271-273 | One printed line: the repository, its pages and rows, and its stop label. `MetricsReport` is stated through it. |
| Report.StopLabel | github_stargazers_loader.py:272 | The reason shown is "watermark" exactly for stop reason 1, and "exhausted" otherwise. |
| Report.MetricsReport | github_stargazers_loader.py:269-273 | One line per repository in the metrics, none missing, in sorted order. Each line shows that repository's own pages, rows and stop label. |

## Left out

- HTTP is not modelled: `requests.Session`, `post` with its timeout, `raise_for_status` and `resp.json()`. Responses are given values. A failure of any of these is one `HttpFailure` response. A lookup that fails before the edge loop (`stargazers`, `edges`) is one `Malformed` response, which puts no rows. A page without `pageInfo` is a `Page` whose page info is missing: its accepted rows are put, then the run raises. A `pageInfo` that holds `hasNextPage` but lacks `endCursor` is not modelled; page info, when present, carries both keys.
- A missing `node`, `login` or `databaseId` on a single edge is not modelled. That `KeyError` would raise mid-page like a timestamp error. Edges always carry these fields here.
- The GraphQL query text is not modelled. Only its sort direction is.
- The API is finite. A server that sets `hasNextPage` for ever is not modelled. The model answers every request beyond the given responses with the timeout.
- Threads, `ThreadPoolExecutor` scheduling, the blocking of `Queue.get`/`put`, the `maxsize` back-pressure and `metrics_lock` are not modelled. Concurrency appears only as the interleaving of the workers' puts. A `get` that never returns is the `Blocked` end.
- After the consumer raises on an error message (line 258), leaving the `with ThreadPoolExecutor` block (line 238) waits for every worker still running, and nobody reads `q` any more. A worker with more rows to put than the `maxsize` queue has room for then blocks for ever on `q.put`, and the run hangs. This hang is not modelled, with or without the corrections: the model proves only that the consumer never waits for ever on `q.get()`.
- `Future.cancel` and the final `f.result()` loop are not modelled. After the drain completes, no future holds an exception: every worker that sent its done message has returned normally. The one exception before the drain, the escaped split error, keeps the drain from completing.
- The dlt resource, its merge on the primary key, and the SQL text and execution are not modelled. The query's outcome is an input.
- `load_config`, the `GITHUB_TOKEN` check, `utc_now_iso` (the `extractedAt` run parameter), `main`, `table_exists` and the row-count helpers are not modelled.
- `datetime.fromisoformat` is an uninterpreted parameter. A wall-clock reading is a plain count of microseconds, with no calendar and no validation of its fields.
- The report's text formatting and `print` are not modelled. The report is a sequence of line values. The `m.get(..., 0)` defaults never matter, because every entry holds all three counters.
- `fetch_repo_to_queue` splits the slug a second time (line 86) and rebuilds the same full name. The model's worker receives that name from the wrapper.
- The fetch loop is split into three methods. `FetchRepoToQueue` runs the `while True` loop, `RunPass` one pass of its body and `PutPageRows` the loop over a page's edges.
- `reports/visualizations.py` and the Dagster orchestration are not modelled. They are plotting, HTML and scheduling glue with no logic of their own.

## Findings

| source | as written | input that shows it | evidently intended | confidence | as-written member | corrected member |
|---|---|---|---|---|---|---|
| github_stargazers_loader.py:57-58 | A string maximum goes through `parse_github_ts` and is stored as parsed. Typed values are normalised to UTC, strings are not. | A row whose maximum is the string "2026-02-19 01:23:45" (no offset), in incremental mode. The watermark is naive, and `starred_at_dt <= watermark` with GitHub's aware edge time raises `TypeError`. | A string maximum is normalised to UTC like a typed one, so every watermark is UTC as the docstring says. | not executed; medium | Watermarks.TextWatermarkStaysNaive | Watermarks.NormalisedWatermarksAreUtc |
| github_stargazers_loader.py:206 | The slug is split before the `try`. A slug without '/' raises out of the wrapper, which puts neither an error nor a done message. | The configuration `repos = ["octocat"]`. No message ever arrives, and `q.get()` waits for ever. | The split is inside the `try`, so a bad slug is reported by an error message and a done message like any other failure. | not executed; high | Interleaving.AsWrittenMalformedSlugBlocks | Interleaving.CorrectedRunOutcome |
| github_stargazers_loader.py:235-238 | The default count `min(len(repos), 5)` is 0 for an empty configuration, and `ThreadPoolExecutor(max_workers=0)` raises `ValueError`. | `repos = []` with `max_workers` unset. | At least one worker, so that a run over no repositories yields nothing. | not executed; low | Coordinator.WorkerCountChoice | Coordinator.WorkerCountCorrectedChoice |
