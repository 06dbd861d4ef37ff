/**
 * The per-run side of the loader: splitting a repository slug, the watermark each
 * worker receives, `worker_wrapper` (which runs one fetch, merges its metrics and always
 * ends the worker's messages with a done message), the number of pool workers and the
 * sort direction of the query.
 */
module Coordinator {
  import opened Wrappers
  import opened Timestamps
  import opened Records
  import opened SharedState
  import opened Fetcher

  /** The position of the first '/' of a string that has one. */
  function FirstSlash(s: string): (i: nat)
    requires '/' in s
    ensures i < |s| && s[i] == '/' && '/' !in s[..i]
  {
    if s[0] == '/' then 0
    else
      var i := 1 + FirstSlash(s[1..]);
      assert s[..i] == [s[0]] + s[1..][..i - 1];
      i
  }

  /** `owner, repo = repo_slug.split("/", 1)`: the text before the first '/' and the text
      after it. `None` is the ValueError the unpacking raises for a slug without '/'. */
  function SplitSlug(slug: string): (r: Option<(string, string)>)
    ensures r.None? <==> '/' !in slug
    ensures r.Some? ==> '/' !in r.value.0 && FullName(r.value.0, r.value.1) == slug
  {
    if '/' in slug then
      var i := FirstSlash(slug);
      assert slug == slug[..i] + "/" + slug[i + 1..];
      Some((slug[..i], slug[i + 1..]))
    else None
  }

  /** `f"{owner}/{repo}"`. */
  function FullName(owner: string, repo: string): string
  {
    owner + "/" + repo
  }

  /** Splitting a full name gives back the owner and the repository it was made of. */
  lemma {:induction false} SplitFullName(owner: string, repo: string)
    requires '/' !in owner
    ensures SplitSlug(FullName(owner, repo)) == Some((owner, repo))
  {
    var s := FullName(owner, repo);
    assert s[|owner|] == '/';
    var i := FirstSlash(s);
    assert forall j :: 0 <= j < |owner| ==> s[j] == owner[j];
    assert s[..i] == owner;
    assert s[i + 1..] == repo;
  }

  /** What every worker of one run shares: the mode, the watermarks read before the run
      (`repo_watermarks or {}`), the timestamp parser and the run's `extracted_at`. */
  datatype Run = Run(mode: string, watermarks: map<string, DateTime>, iso: IsoParser, extractedAt: string)

  /** `repo_watermarks.get(repo_full_name) if mode == "incremental" else None`. */
  function WatermarkFor(run: Run, fullName: string): Option<DateTime>
  {
    if run.mode == Incremental && fullName in run.watermarks then Some(run.watermarks[fullName]) else None
  }

  /** The arguments `worker_wrapper` hands to `fetch_repo_to_queue`. */
  function WorkerConfig(run: Run, owner: string, repo: string): Config
  {
    var name := FullName(owner, repo);
    Config(name, run.mode, WatermarkFor(run, name), run.iso, run.extractedAt)
  }

  /** A worker stops at a watermark exactly when the run is incremental and the table
      held a watermark for its repository; a backfill ignores every watermark. */
  lemma {:induction false} WorkerWatermark(run: Run, owner: string, repo: string)
    ensures var c := WorkerConfig(run, owner, repo);
            && c.repoFullName == FullName(owner, repo)
            && (WatermarkActive(c) <==> run.mode == Incremental && FullName(owner, repo) in run.watermarks)
            && (WatermarkActive(c) ==> c.watermark.value == run.watermarks[FullName(owner, repo)])
  {
  }

  /** The messages a fetch leaves behind in `worker_wrapper`: its rows, the error message
      if it raised, and the done message of the `finally` clause. */
  function FetchStream(slug: string, t: FetchTrace): seq<Message>
  {
    DataMessages(t.rows) + (if t.outcome.Failed? then [Error(slug, t.outcome.cause)] else []) + [Done(slug)]
  }

  /** Everything `worker_wrapper` puts on the queue, as written: the split of the slug
      happens before the `try`, so a slug without '/' puts nothing, not even a done
      message. */
  function WrapperStream(run: Run, slug: string, responses: seq<Response>): seq<Message>
  {
    match SplitSlug(slug)
    case None => []
    case Some((owner, repo)) => FetchStream(slug, Fetch(WorkerConfig(run, owner, repo), responses))
  }

  /** The metrics map after `worker_wrapper`: the fetch's entry is merged only when the
      fetch finished. A failed fetch writes no metrics, and its empty local table is not
      merged. */
  function WrapperMetrics(run: Run, slug: string, responses: seq<Response>, before: map<string, WorkerMetrics>)
    : map<string, WorkerMetrics>
  {
    match SplitSlug(slug)
    case None => before
    case Some((owner, repo)) =>
      var t := Fetch(WorkerConfig(run, owner, repo), responses);
      if t.outcome.Finished? then before[FullName(owner, repo) := t.outcome.metrics] else before
  }

  /** `worker_wrapper(repo_slug)`. `escaped` is the ValueError of the slug split, which
      leaves the wrapper (and ends up in the worker's future) instead of being put on the
      queue. */
  method WorkerWrapper(run: Run, slug: string, responses: seq<Response>, q: MessageQueue, metrics: MetricsTable)
    returns (escaped: bool)
    modifies q, metrics
    ensures escaped <==> '/' !in slug
    ensures q.items == old(q.items) + WrapperStream(run, slug, responses)
    ensures metrics.entries == WrapperMetrics(run, slug, responses, old(metrics.entries))
  {
    var split := SplitSlug(slug);
    if split.None? {
      return true;
    }
    var owner, repo := split.value.0, split.value.1;
    var c := WorkerConfig(run, owner, repo);
    var local := new MetricsTable();
    var requests, outcome := FetchRepoToQueue(c, responses, q, local);
    var t := Fetch(c, responses);
    if outcome.Finished? {
      metrics.Update(local);
      assert map[][c.repoFullName := t.outcome.metrics] == map[c.repoFullName := t.outcome.metrics];
      assert old(metrics.entries) + map[c.repoFullName := t.outcome.metrics]
          == old(metrics.entries)[c.repoFullName := t.outcome.metrics];
    } else {
      q.Put(Error(slug, outcome.cause));
    }
    q.Put(Done(slug));
    escaped := false;
  }

  /** The same wrapper with the split moved into the `try`: a malformed slug is reported
      like any other failure, with an error and a done message. */
  function WrapperStreamCorrected(run: Run, slug: string, responses: seq<Response>): seq<Message>
  {
    match SplitSlug(slug)
    case None => [Error(slug, MalformedSlug), Done(slug)]
    case Some((owner, repo)) => FetchStream(slug, Fetch(WorkerConfig(run, owner, repo), responses))
  }

  lemma {:induction false} FetchStreamWellFormed(slug: string, t: FetchTrace)
    ensures WellFormed(FetchStream(slug, t))
    ensures NoError(FetchStream(slug, t)) <==> t.outcome.Finished?
    ensures DataRows(FetchStream(slug, t)) == t.rows
  {
    var s := FetchStream(slug, t);
    var tail := (if t.outcome.Failed? then [Error(slug, t.outcome.cause)] else []) + [Done(slug)];
    assert s == DataMessages(t.rows) + tail;
    assert forall i :: 0 <= i < |t.rows| ==> s[i] == Data(t.rows[i]);
    if t.outcome.Failed? {
      assert s[|s| - 2] == Error(slug, t.outcome.cause);
    }
    DataRowsConcat(DataMessages(t.rows), tail);
    DataRowsOfDataMessages(t.rows);
    assert DataRows([Done(slug)]) == [] by {
      assert [Done(slug)][1..] == [];
    }
    if t.outcome.Failed? {
      assert tail[1..] == [Done(slug)];
    }
  }

  /** Whether the worker for `slug` gets through: its slug splits and its fetch finishes. */
  predicate WorkerSucceeds(run: Run, slug: string, responses: seq<Response>)
  {
    match SplitSlug(slug)
    case None => false
    case Some((owner, repo)) => Fetch(WorkerConfig(run, owner, repo), responses).outcome.Finished?
  }

  /** Every corrected wrapper ends with exactly one done message; it reports an error
      exactly when the slug is malformed or the fetch raised, and its rows are the
      fetch's rows. */
  lemma {:induction false} CorrectedStreamMeaning(run: Run, slug: string, responses: seq<Response>)
    ensures var s := WrapperStreamCorrected(run, slug, responses);
            && WellFormed(s)
            && (NoError(s) <==> WorkerSucceeds(run, slug, responses))
            && (SplitSlug(slug).Some? ==>
                  DataRows(s) == Fetch(WorkerConfig(run, SplitSlug(slug).value.0, SplitSlug(slug).value.1), responses).rows)
  {
    match SplitSlug(slug)
    case None =>
      var s := WrapperStreamCorrected(run, slug, responses);
      assert s[0].Error?;
    case Some((owner, repo)) =>
      FetchStreamWellFormed(slug, Fetch(WorkerConfig(run, owner, repo), responses));
  }

  /** As written, a wrapper whose slug has no '/' sends no done message, while every other
      wrapper sends the same well-formed stream as the corrected one. */
  lemma {:induction false} WrapperStreamAsWritten(run: Run, slug: string, responses: seq<Response>)
    ensures '/' !in slug ==> WrapperStream(run, slug, responses) == []
    ensures '/' in slug ==> WrapperStream(run, slug, responses) == WrapperStreamCorrected(run, slug, responses)
    ensures '/' in slug ==> WellFormed(WrapperStream(run, slug, responses))
  {
    CorrectedStreamMeaning(run, slug, responses);
  }

  /** The ValueError `ThreadPoolExecutor` raises for `max_workers <= 0`. */
  datatype PoolError = NonPositiveMaxWorkers

  function Min(a: int, b: int): int
  {
    if a <= b then a else b
  }

  /** `workers = max_workers or min(len(repos), 5)`, then the pool's own check. Python's
      `or` falls back to the default for `None` and for 0. */
  function WorkerCount(maxWorkers: Option<int>, repos: nat): Result<int, PoolError>
  {
    var chosen := if maxWorkers.Some? && maxWorkers.value != 0 then maxWorkers.value else Min(repos, 5);
    if chosen <= 0 then Err(NonPositiveMaxWorkers) else Ok(chosen)
  }

  /** An explicit positive count is used as given and a negative one is refused; the
      default is the number of repositories capped at 5, which the pool refuses when
      there are no repositories. */
  lemma {:induction false} WorkerCountChoice(maxWorkers: Option<int>, repos: nat)
    ensures maxWorkers.Some? && maxWorkers.value > 0 ==> WorkerCount(maxWorkers, repos) == Ok(maxWorkers.value)
    ensures maxWorkers.Some? && maxWorkers.value < 0 ==> WorkerCount(maxWorkers, repos).Err?
    ensures (maxWorkers.None? || maxWorkers.value == 0) ==>
              (WorkerCount(maxWorkers, repos).Ok? <==> repos > 0)
    ensures (maxWorkers.None? || maxWorkers.value == 0) && repos > 0 ==>
              var n := WorkerCount(maxWorkers, repos).value;
              1 <= n <= 5 && n <= repos && (n == 5 || n == repos)
  {
  }

  /** The default as evidently intended: never fewer than one worker, so that a run over
      no repositories yields nothing instead of failing. */
  function WorkerCountCorrected(maxWorkers: Option<int>, repos: nat): Result<int, PoolError>
  {
    var chosen := if maxWorkers.Some? && maxWorkers.value != 0 then maxWorkers.value
                  else if repos == 0 then 1 else Min(repos, 5);
    if chosen <= 0 then Err(NonPositiveMaxWorkers) else Ok(chosen)
  }

  /** The corrected default always gives a pool of 1 to 5 workers, no more than there are
      repositories when there are any; explicit counts are treated as before. */
  lemma {:induction false} WorkerCountCorrectedChoice(maxWorkers: Option<int>, repos: nat)
    ensures maxWorkers.Some? && maxWorkers.value != 0 ==>
              WorkerCountCorrected(maxWorkers, repos) == WorkerCount(maxWorkers, repos)
    ensures (maxWorkers.None? || maxWorkers.value == 0) ==>
              var r := WorkerCountCorrected(maxWorkers, repos);
              r.Ok? && 1 <= r.value <= 5 && (repos > 0 ==> r == WorkerCount(maxWorkers, repos))
  {
  }

  /** The sort order of the stargazers query: oldest first for a backfill, newest first
      otherwise, which is the order the incremental watermark stop relies on. */
  function Direction(mode: string): (d: string)
    ensures mode == Backfill ==> d == "ASC"
    ensures mode != Backfill ==> d == "DESC"
    ensures mode == Incremental ==> d == "DESC"
  {
    if mode == Backfill then "ASC" else "DESC"
  }
}
