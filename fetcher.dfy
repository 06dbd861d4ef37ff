/**
 * `fetch_repo_to_queue`: the per-repository pagination worker. The remote GraphQL API
 * is a finite sequence of responses, the k-th answering the k-th request; a request
 * beyond the end of the sequence gets no answer, which the worker sees as a transport
 * failure (the 30-second timeout).
 */
module Fetcher {
  import opened Wrappers
  import opened Timestamps
  import opened Records
  import opened SharedState

  datatype Edge = Edge(starredAt: string, login: string, databaseId: int)

  /** A page's `pageInfo`. */
  datatype PageInfo = PageInfo(hasNextPage: bool, endCursor: Option<string>)

  /** One response as the worker reads it. */
  datatype Response =
    | HttpFailure      // the post, raise_for_status or the JSON decoding raised
    | ErrorPayload     // the JSON carries an "errors" key
    | Malformed        // a lookup before the edge loop (`stargazers`, `edges`) raises
    | NoRepository     // data.repository is null or empty
    | Page(edges: seq<Edge>, pageInfo: Option<PageInfo>)
      // `pageInfo == None`: the lookup of `pageInfo`, made after the edge loop, raises

  /** What one worker is told: the repository full name, the mode string, the optional
      watermark, the timestamp parser and the run-wide `extracted_at` string. */
  datatype Config = Config(
    repoFullName: string,
    mode: string,
    watermark: Option<DateTime>,
    iso: IsoParser,
    extractedAt: string)

  const Incremental: string := "incremental"
  const Backfill: string := "backfill"

  /** The stop rule is consulted only in incremental mode with a watermark. */
  predicate WatermarkActive(c: Config)
  {
    c.mode == Incremental && c.watermark.Some?
  }

  /** The edge's time parses and lies strictly after the watermark. */
  predicate StrictlyAfterWatermark(c: Config, e: Edge)
    requires c.watermark.Some?
  {
    var t := ParseGithubTs(c.iso, e.starredAt);
    t.Ok? && LessOrEqual(t.value, c.watermark.value) == Ok(false)
  }

  function RowOf(c: Config, e: Edge): StarRow
  {
    StarRow(c.repoFullName, e.login, e.databaseId, e.starredAt, c.extractedAt)
  }

  function RowsOf(c: Config, edges: seq<Edge>): (rows: seq<StarRow>)
    ensures |rows| == |edges|
    ensures forall i :: 0 <= i < |edges| ==> rows[i] == RowOf(c, edges[i])
  {
    seq(|edges|, i requires 0 <= i < |edges| => RowOf(c, edges[i]))
  }

  /** What the loop body does with one edge: `Ok(true)` puts its row, `Ok(false)` is the
      watermark stop, `Err` is the exception the parse or the comparison raises. */
  function EdgeVerdict(c: Config, e: Edge): Result<bool, Cause>
  {
    match ParseGithubTs(c.iso, e.starredAt)
    case Err(x) => Err(Timestamp(x))
    case Ok(t) =>
      if !WatermarkActive(c) then Ok(true)
      else
        match LessOrEqual(t, c.watermark.value)
        case Err(x) => Err(Timestamp(x))
        case Ok(le) => Ok(!le)
  }

  /** The verdict stops only under an active watermark; there it puts exactly the edges
      strictly after the watermark, and elsewhere exactly the edges whose time parses. */
  lemma {:induction false} EdgeVerdictMeaning(c: Config, e: Edge)
    ensures EdgeVerdict(c, e) == Ok(false) ==> WatermarkActive(c)
    ensures WatermarkActive(c) ==> (EdgeVerdict(c, e) == Ok(true) <==> StrictlyAfterWatermark(c, e))
    ensures !WatermarkActive(c) ==> (EdgeVerdict(c, e) == Ok(true) <==> ParseGithubTs(c.iso, e.starredAt).Ok?)
    ensures EdgeVerdict(c, e).Err? && !WatermarkActive(c) ==>
              EdgeVerdict(c, e).error == Timestamp(ParseGithubTs(c.iso, e.starredAt).error)
  {
  }

  /** The result of the loop over one page's edges. */
  datatype EdgeScan = EdgeScan(rows: seq<StarRow>, stopped: bool, failure: Option<Cause>)

  /** The loop over one page's edges: puts rows while the verdict says so, and stops at the
      first edge at or below the watermark or at the first exception. */
  function ScanEdges(c: Config, edges: seq<Edge>): EdgeScan
    decreases |edges|
  {
    if edges == [] then EdgeScan([], false, None)
    else
      match EdgeVerdict(c, edges[0])
      case Err(x) => EdgeScan([], false, Some(x))
      case Ok(put) =>
        if !put then EdgeScan([], true, None)
        else
          var rest := ScanEdges(c, edges[1..]);
          EdgeScan([RowOf(c, edges[0])] + rest.rows, rest.stopped, rest.failure)
  }

  /** The rows put are those of the longest prefix of edges whose verdict is to put; the
      first other edge either stops the scan at the watermark or raises, and a scan that
      does neither has put every edge. */
  lemma {:induction false} ScanEdgesMeaning(c: Config, edges: seq<Edge>)
    ensures var r := ScanEdges(c, edges);
            && |r.rows| <= |edges| && r.rows == RowsOf(c, edges[..|r.rows|])
            && (forall i :: 0 <= i < |r.rows| ==> EdgeVerdict(c, edges[i]) == Ok(true))
            && !(r.stopped && r.failure.Some?)
            && (r.stopped ==> |r.rows| < |edges| && EdgeVerdict(c, edges[|r.rows|]) == Ok(false))
            && (r.failure.Some? ==> |r.rows| < |edges| && EdgeVerdict(c, edges[|r.rows|]) == Err(r.failure.value))
            && (!r.stopped && r.failure.None? ==> |r.rows| == |edges|)
    decreases |edges|
  {
    if edges != [] && EdgeVerdict(c, edges[0]) == Ok(true) {
      ScanEdgesMeaning(c, edges[1..]);
      var rest := ScanEdges(c, edges[1..]);
      assert edges[1..][..|rest.rows|] == edges[1..|rest.rows| + 1];
      var r := ScanEdges(c, edges);
      forall i | 0 <= i < |r.rows| ensures EdgeVerdict(c, edges[i]) == Ok(true) {
        if i > 0 { assert edges[i] == edges[1..][i - 1]; }
      }
    }
  }

  /** The scan is determined by where the first edge that is not put stands. */
  lemma {:induction false} ScanDetermined(c: Config, edges: seq<Edge>, j: nat)
    requires j <= |edges|
    requires forall i :: 0 <= i < j ==> EdgeVerdict(c, edges[i]) == Ok(true)
    requires j < |edges| ==> EdgeVerdict(c, edges[j]) != Ok(true)
    ensures ScanEdges(c, edges).rows == RowsOf(c, edges[..j])
    ensures ScanEdges(c, edges).stopped <==> j < |edges| && EdgeVerdict(c, edges[j]) == Ok(false)
    ensures ScanEdges(c, edges).failure ==
              (if j < |edges| && EdgeVerdict(c, edges[j]).Err? then Some(EdgeVerdict(c, edges[j]).error) else None)
  {
    ScanEdgesMeaning(c, edges);
  }

  /** Without an active watermark the scan never stops at a watermark, and when every
      time parses it puts every edge. */
  lemma {:induction false} ScanWithoutWatermark(c: Config, edges: seq<Edge>)
    requires !WatermarkActive(c)
    ensures !ScanEdges(c, edges).stopped
    ensures (forall i :: 0 <= i < |edges| ==> ParseGithubTs(c.iso, edges[i].starredAt).Ok?) ==>
              ScanEdges(c, edges) == EdgeScan(RowsOf(c, edges), false, None)
  {
    ScanEdgesMeaning(c, edges);
    var r := ScanEdges(c, edges);
    if r.stopped {
      EdgeVerdictMeaning(c, edges[|r.rows|]);
    }
    if forall i :: 0 <= i < |edges| ==> ParseGithubTs(c.iso, edges[i].starredAt).Ok? {
      ScanDetermined(c, edges, |edges|);
      assert edges[..|edges|] == edges;
    }
  }

  datatype FetchOutcome = Finished(metrics: WorkerMetrics) | Failed(cause: Cause)

  /** Everything a worker run does: the rows it puts, the `after` cursor of each request
      it sends, and how it ends. */
  datatype FetchTrace = FetchTrace(rows: seq<StarRow>, requests: seq<Option<string>>, outcome: FetchOutcome)

  /** How one pass of the `while True` loop ends: with the cursor of the next request,
      with the loop left by `break` (stop reason 0 or 1), or with an exception. */
  datatype Next = Continue(cursor: Option<string>) | Stop(reason: nat) | Raise(cause: Cause)

  /** One pass of the loop: the rows it puts, whether it counted a page, how it ends. */
  datatype Pass = Pass(rows: seq<StarRow>, pageRead: bool, next: Next)

  /** The pass the loop body makes on one response. */
  function PassOn(c: Config, r: Response): Pass
  {
    match r
    case HttpFailure => Pass([], false, Raise(TransportFailure))
    case ErrorPayload => Pass([], false, Raise(GraphQLErrors))
    case Malformed => Pass([], false, Raise(MalformedPayload))
    case NoRepository => Pass([], false, Stop(0))
    case Page(edges, info) =>
      var s := ScanEdges(c, edges);
      Pass(s.rows, true,
           if s.failure.Some? then Raise(s.failure.value)
           else if s.stopped then Stop(1)
           else if info.None? then Raise(MalformedPayload)
           else if info.value.hasNextPage then Continue(info.value.endCursor)
           else Stop(0))
  }

  /** The passes on the responses, in order. */
  function Passes(c: Config, responses: seq<Response>): (ps: seq<Pass>)
    ensures |ps| == |responses|
  {
    if responses == [] then [] else [PassOn(c, responses[0])] + Passes(c, responses[1..])
  }

  /** The pass on a request no response answers: the timeout raises. */
  const Unanswered: Pass := Pass([], false, Raise(TransportFailure))

  function PassAt(ps: seq<Pass>, k: nat): Pass
  {
    if k < |ps| then ps[k] else Unanswered
  }

  /** The `while True` loop of `fetch_repo_to_queue` from the k-th request on, given the
      pass each request makes, with the cursor and the two counters. */
  function LoopFrom(ps: seq<Pass>, k: nat, cursor: Option<string>, pages: nat, yielded: nat): FetchTrace
    decreases |ps| - k
  {
    if k >= |ps| then FetchTrace([], [cursor], Failed(TransportFailure))
    else
      var it := ps[k];
      var p := pages + (if it.pageRead then 1 else 0);
      var y := yielded + |it.rows|;
      match it.next
      case Continue(next) =>
        var rest := LoopFrom(ps, k + 1, next, p, y);
        FetchTrace(it.rows + rest.rows, [cursor] + rest.requests, rest.outcome)
      case Stop(reason) => FetchTrace(it.rows, [cursor], Finished(WorkerMetrics(p, y, reason)))
      case Raise(cause) => FetchTrace(it.rows, [cursor], Failed(cause))
  }

  /** A whole worker run: first request without a cursor, counters at zero. */
  function Fetch(c: Config, responses: seq<Response>): FetchTrace
  {
    LoopFrom(Passes(c, responses), 0, None, 0, 0)
  }

  /** The rows put by the passes from..to-1. */
  function PassRows(ps: seq<Pass>, from: nat, to: nat): seq<StarRow>
    decreases (to as int) - (from as int)
  {
    if to <= from then [] else PassAt(ps, from).rows + PassRows(ps, from + 1, to)
  }

  /** The number of pages the passes from..to-1 counted. */
  function ReadCount(ps: seq<Pass>, from: nat, to: nat): nat
    decreases (to as int) - (from as int)
  {
    if to <= from then 0 else (if PassAt(ps, from).pageRead then 1 else 0) + ReadCount(ps, from + 1, to)
  }

  /** The loop's bookkeeping across one pass: if the run so far followed by the loop from
      the k-th request on is the whole run, then so is the run after the pass followed by
      the rest of the loop, or the run after the pass is the whole run when the pass ends
      the loop. */
  lemma {:induction false} LoopStep(ps: seq<Pass>, k: nat, cursor: Option<string>, pages: nat, yielded: nat,
                 whole: FetchTrace, emitted: seq<StarRow>, requests: seq<Option<string>>)
    requires whole == var rest := LoopFrom(ps, k, cursor, pages, yielded);
                      FetchTrace(emitted + rest.rows, requests + rest.requests, rest.outcome)
    ensures var it := PassAt(ps, k);
            var p := pages + (if it.pageRead then 1 else 0);
            var y := yielded + |it.rows|;
            match it.next
            case Continue(next) =>
              && k < |ps|
              && whole == var rest := LoopFrom(ps, k + 1, next, p, y);
                          FetchTrace((emitted + it.rows) + rest.rows, (requests + [cursor]) + rest.requests, rest.outcome)
            case Stop(reason) => whole == FetchTrace(emitted + it.rows, requests + [cursor], Finished(WorkerMetrics(p, y, reason)))
            case Raise(cause) => whole == FetchTrace(emitted + it.rows, requests + [cursor], Failed(cause))
  {
    var it := PassAt(ps, k);
    match it.next
    case Continue(next) =>
      var rest := LoopFrom(ps, k + 1, next, pages + (if it.pageRead then 1 else 0), yielded + |it.rows|);
      assert emitted + (it.rows + rest.rows) == (emitted + it.rows) + rest.rows;
      assert requests + ([cursor] + rest.requests) == (requests + [cursor]) + rest.requests;
    case Stop(reason) =>
      assert emitted + it.rows + [] == emitted + it.rows;
    case Raise(cause) =>
      assert emitted + it.rows + [] == emitted + it.rows;
  }

  /** Request i + 1 (counting from k) is sent only after pass i continued, and it uses the
      cursor that pass handed on. */
  lemma {:induction false} LoopRequestAt(ps: seq<Pass>, k: nat, cursor: Option<string>, pages: nat, yielded: nat, i: nat)
    requires k <= i
    requires i + 1 < k + |LoopFrom(ps, k, cursor, pages, yielded).requests|
    ensures i < |ps| && ps[i].next.Continue?
    ensures LoopFrom(ps, k, cursor, pages, yielded).requests[i - k + 1] == ps[i].next.cursor
    decreases i - k
  {
    var it := ps[k];
    var p := pages + (if it.pageRead then 1 else 0);
    var y := yielded + |it.rows|;
    if i > k {
      LoopRequestAt(ps, k + 1, it.next.cursor, p, y, i);
    } else {
      LoopRequests(ps, k + 1, it.next.cursor, p, y);
    }
  }

  /** The loop ends: its first request uses the given cursor, at most one request goes
      past the passes, and the pass of the last request does not continue. */
  lemma {:induction false} LoopRequests(ps: seq<Pass>, k: nat, cursor: Option<string>, pages: nat, yielded: nat)
    ensures var t := LoopFrom(ps, k, cursor, pages, yielded);
            && |t.requests| >= 1 && t.requests[0] == cursor
            && (k <= |ps| ==> k + |t.requests| - 1 <= |ps|)
            && !PassAt(ps, k + |t.requests| - 1).next.Continue?
    decreases |ps| - k
  {
    if k < |ps| && ps[k].next.Continue? {
      var it := ps[k];
      LoopRequests(ps, k + 1, it.next.cursor, pages + (if it.pageRead then 1 else 0), yielded + |it.rows|);
    }
  }

  /** The rows put are those of the passes before the last request's, then that pass's. */
  lemma {:induction false} LoopRows(ps: seq<Pass>, k: nat, cursor: Option<string>, pages: nat, yielded: nat)
    ensures var t := LoopFrom(ps, k, cursor, pages, yielded);
            var last := k + |t.requests| - 1;
            t.rows == PassRows(ps, k, last) + PassAt(ps, last).rows
    decreases |ps| - k
  {
    var t := LoopFrom(ps, k, cursor, pages, yielded);
    if k < |ps| && ps[k].next.Continue? {
      var it := ps[k];
      var p := pages + (if it.pageRead then 1 else 0);
      var y := yielded + |it.rows|;
      LoopRows(ps, k + 1, it.next.cursor, p, y);
      var rest := LoopFrom(ps, k + 1, it.next.cursor, p, y);
      assert t.rows == it.rows + rest.rows && t.requests == [cursor] + rest.requests;
      var last := k + |t.requests| - 1;
      assert last == (k + 1) + |rest.requests| - 1;
      LoopRequests(ps, k + 1, it.next.cursor, p, y);
      assert PassRows(ps, k, last) == PassAt(ps, k).rows + PassRows(ps, k + 1, last);
      assert it.rows + (PassRows(ps, k + 1, last) + PassAt(ps, last).rows)
             == (it.rows + PassRows(ps, k + 1, last)) + PassAt(ps, last).rows;
    } else {
      assert |t.requests| == 1;
      assert PassRows(ps, k, k) == [];
    }
  }

  /** The outcome is decided by the pass of the last request: its exception, or the
      metrics with every counted page, every row put and that pass's stop reason. */
  lemma {:induction false} LoopOutcome(ps: seq<Pass>, k: nat, cursor: Option<string>, pages: nat, yielded: nat)
    ensures var t := LoopFrom(ps, k, cursor, pages, yielded);
            var last := k + |t.requests| - 1;
            var it := PassAt(ps, last);
            && (it.next.Raise? ==> t.outcome == Failed(it.next.cause))
            && (it.next.Stop? ==>
                  t.outcome == Finished(WorkerMetrics(
                    pages + ReadCount(ps, k, last) + (if it.pageRead then 1 else 0),
                    yielded + |t.rows|,
                    it.next.reason)))
    decreases |ps| - k
  {
    if k < |ps| && ps[k].next.Continue? {
      var it := ps[k];
      var p := pages + (if it.pageRead then 1 else 0);
      var y := yielded + |it.rows|;
      LoopOutcome(ps, k + 1, it.next.cursor, p, y);
      LoopRequests(ps, k + 1, it.next.cursor, p, y);
      var rest := LoopFrom(ps, k + 1, it.next.cursor, p, y);
      var last := (k + 1) + |rest.requests| - 1;
      assert ReadCount(ps, k, last) == (if it.pageRead then 1 else 0) + ReadCount(ps, k + 1, last);
    } else {
      assert ReadCount(ps, k, k) == 0;
    }
  }

  lemma {:induction false} ReadCountAll(ps: seq<Pass>, from: nat, to: nat)
    requires from <= to
    requires forall i :: from <= i < to ==> PassAt(ps, i).pageRead
    ensures ReadCount(ps, from, to) == to - from
    decreases (to as int) - (from as int)
  {
    if from < to {
      ReadCountAll(ps, from + 1, to);
    }
  }

  function ResponseAt(responses: seq<Response>, k: nat): Response
  {
    if k < |responses| then responses[k] else HttpFailure
  }

  /** The pass a request makes: on its response, and the timeout's when none answers. */
  lemma {:induction false} PassOfRequest(c: Config, responses: seq<Response>, k: nat)
    ensures PassAt(Passes(c, responses), k) == PassOn(c, ResponseAt(responses, k))
  {
    if 0 < k < |responses| {
      PassOfRequest(c, responses[1..], k - 1);
      assert responses[1..][k - 1] == responses[k];
    }
  }

  /** A page whose `pageInfo` says `hasNextPage`. */
  predicate AsksForMore(r: Response)
  {
    r.Page? && r.pageInfo.Some? && r.pageInfo.value.hasNextPage
  }

  /** A response after which the loop asks for the next page. */
  predicate Continues(c: Config, r: Response)
  {
    AsksForMore(r) && !ScanEdges(c, r.edges).stopped && ScanEdges(c, r.edges).failure.None?
  }

  /** The exception a response makes the loop raise, if any. */
  function RaisedBy(c: Config, r: Response): Option<Cause>
  {
    match r
    case HttpFailure => Some(TransportFailure)
    case ErrorPayload => Some(GraphQLErrors)
    case Malformed => Some(MalformedPayload)
    case NoRepository => None
    case Page(edges, info) =>
      var s := ScanEdges(c, edges);
      if s.failure.Some? then s.failure
      else if !s.stopped && info.None? then Some(MalformedPayload)
      else None
  }

  /** The response is a page cut at the watermark. */
  predicate StoppedAtWatermark(c: Config, r: Response)
  {
    r.Page? && ScanEdges(c, r.edges).stopped
  }

  /** What a pass on a response amounts to: a page is counted exactly when the response
      carries repository data; the pass continues exactly after a page that asks for more
      and was neither cut nor raised, and then it has put every edge and hands on the
      page's end cursor; it raises what the response makes the loop raise; otherwise it
      leaves the loop, with stop reason 1 exactly at the watermark. */
  lemma {:induction false} PassMeaning(c: Config, r: Response)
    ensures var it := PassOn(c, r);
            && it.pageRead == r.Page?
            && it.rows == (if r.Page? then ScanEdges(c, r.edges).rows else [])
            && (it.next.Continue? <==> Continues(c, r))
            && (it.next.Continue? ==> it.next.cursor == r.pageInfo.value.endCursor && it.rows == RowsOf(c, r.edges))
            && (it.next.Raise? <==> RaisedBy(c, r).Some?)
            && (it.next.Raise? ==> it.next.cause == RaisedBy(c, r).value)
            && (it.next.Stop? ==> (r.Page? || r.NoRepository?)
                                  && it.next.reason == if StoppedAtWatermark(c, r) then 1 else 0)
  {
    if r.Page? {
      ScanEdgesMeaning(c, r.edges);
      assert r.edges[..|r.edges|] == r.edges;
    }
  }

  /** The rows of every edge of the pages among responses[from..to]. */
  function PageRows(c: Config, responses: seq<Response>, from: nat, to: nat): seq<StarRow>
    requires from <= to <= |responses|
    decreases (to as int) - (from as int)
  {
    if from == to then []
    else (if responses[from].Page? then RowsOf(c, responses[from].edges) else []) + PageRows(c, responses, from + 1, to)
  }

  lemma {:induction false} PageRowsSnoc(c: Config, responses: seq<Response>, from: nat, to: nat)
    requires from <= to < |responses|
    ensures PageRows(c, responses, from, to + 1)
            == PageRows(c, responses, from, to) + (if responses[to].Page? then RowsOf(c, responses[to].edges) else [])
    decreases (to as int) - (from as int)
  {
    if from < to {
      PageRowsSnoc(c, responses, from + 1, to);
    }
  }

  /** Passes that continue put every edge of their pages. */
  lemma {:induction false} PassRowsContinuing(c: Config, responses: seq<Response>, from: nat, to: nat)
    requires from <= to <= |responses|
    requires forall i :: from <= i < to ==> Continues(c, responses[i])
    ensures PassRows(Passes(c, responses), from, to) == PageRows(c, responses, from, to)
    decreases (to as int) - (from as int)
  {
    if from < to {
      PassOfRequest(c, responses, from);
      PassMeaning(c, responses[from]);
      PassRowsContinuing(c, responses, from + 1, to);
    }
  }

  /** Every edge time of every page parses. */
  predicate AllTimesParse(c: Config, responses: seq<Response>)
  {
    forall i, j :: 0 <= i < |responses| && responses[i].Page? && 0 <= j < |responses[i].edges| ==>
      ParseGithubTs(c.iso, responses[i].edges[j].starredAt).Ok?
  }

  /** Without an active watermark, a pass on a page whose every time parses puts it all. */
  lemma {:induction false} PassAllParse(c: Config, r: Response)
    requires !WatermarkActive(c)
    requires r.Page? ==> forall j :: 0 <= j < |r.edges| ==> ParseGithubTs(c.iso, r.edges[j].starredAt).Ok?
    ensures PassOn(c, r).rows == if r.Page? then RowsOf(c, r.edges) else []
  {
    if r.Page? {
      ScanWithoutWatermark(c, r.edges);
    }
  }

  /** Without an active watermark and with every time parsing, each pass puts its page. */
  lemma {:induction false} PassRowsAllParse(c: Config, responses: seq<Response>, from: nat, to: nat)
    requires !WatermarkActive(c) && AllTimesParse(c, responses)
    requires from <= to <= |responses|
    ensures PassRows(Passes(c, responses), from, to) == PageRows(c, responses, from, to)
    decreases (to as int) - (from as int)
  {
    if from < to {
      var r := responses[from];
      PassOfRequest(c, responses, from);
      assert r.Page? ==> forall j :: 0 <= j < |r.edges| ==> ParseGithubTs(c.iso, r.edges[j].starredAt).Ok?;
      PassAllParse(c, r);
      PassRowsAllParse(c, responses, from + 1, to);
    }
  }

  /** The row's `starred_at` parses to a time strictly after the watermark. */
  predicate RowAfterWatermark(c: Config, row: StarRow)
    requires c.watermark.Some?
  {
    var t := ParseGithubTs(c.iso, row.starredAt);
    t.Ok? && LessOrEqual(t.value, c.watermark.value) == Ok(false)
  }

  /** Under an active watermark, every row a pass puts is strictly after it. */
  lemma {:induction false} PassRowsAfter(c: Config, r: Response)
    requires WatermarkActive(c)
    ensures forall i :: 0 <= i < |PassOn(c, r).rows| ==> RowAfterWatermark(c, PassOn(c, r).rows[i])
  {
    if r.Page? {
      ScanEdgesMeaning(c, r.edges);
      forall i | 0 <= i < |PassOn(c, r).rows| ensures RowAfterWatermark(c, PassOn(c, r).rows[i]) {
        EdgeVerdictMeaning(c, r.edges[i]);
      }
    }
  }

  lemma {:induction false} PassRowsAfterWatermark(c: Config, responses: seq<Response>, from: nat, to: nat)
    requires WatermarkActive(c)
    ensures forall i :: 0 <= i < |PassRows(Passes(c, responses), from, to)| ==> RowAfterWatermark(c, PassRows(Passes(c, responses), from, to)[i])
    decreases (to as int) - (from as int)
  {
    if from < to {
      var ps := Passes(c, responses);
      PassOfRequest(c, responses, from);
      PassRowsAfter(c, ResponseAt(responses, from));
      PassRowsAfterWatermark(c, responses, from + 1, to);
      var head := PassAt(ps, from).rows;
      var rows := PassRows(ps, from, to);
      assert rows == head + PassRows(ps, from + 1, to);
      forall i | 0 <= i < |rows| ensures RowAfterWatermark(c, rows[i]) {
        if i >= |head| {
          assert rows[i] == PassRows(ps, from + 1, to)[i - |head|];
        }
      }
    }
  }

  /** Cursor discipline of a whole run: the first request has no cursor, each later one
      uses the `endCursor` of the page before it, and that page let the loop go on; the
      response to the last request does not. */
  lemma {:induction false} FetchRequests(c: Config, responses: seq<Response>)
    ensures var t := Fetch(c, responses);
            && |t.requests| >= 1 && t.requests[0] == None
            && |t.requests| <= |responses| + 1
            && (forall i :: 0 <= i < |t.requests| - 1 ==>
                  i < |responses| && Continues(c, responses[i]) && t.requests[i + 1] == responses[i].pageInfo.value.endCursor)
            && !Continues(c, ResponseAt(responses, |t.requests| - 1))
  {
    var ps := Passes(c, responses);
    var t := Fetch(c, responses);
    LoopRequests(ps, 0, None, 0, 0);
    forall i | 0 <= i < |t.requests| - 1
      ensures i < |responses| && Continues(c, responses[i]) && t.requests[i + 1] == responses[i].pageInfo.value.endCursor
    {
      LoopRequestAt(ps, 0, None, 0, 0, i);
      PassOfRequest(c, responses, i);
      PassMeaning(c, responses[i]);
    }
    PassOfRequest(c, responses, |t.requests| - 1);
    PassMeaning(c, ResponseAt(responses, |t.requests| - 1));
  }

  /** Rows of a whole run: every edge of each page before the last request, in page
      order, then the scanned prefix of the page answering the last request, if any. */
  lemma {:induction false} FetchRows(c: Config, responses: seq<Response>)
    ensures var t := Fetch(c, responses);
            var last := |t.requests| - 1;
            var r := ResponseAt(responses, last);
            && last <= |responses|
            && t.rows == PageRows(c, responses, 0, last) + (if r.Page? then ScanEdges(c, r.edges).rows else [])
  {
    var ps := Passes(c, responses);
    var t := Fetch(c, responses);
    var last := |t.requests| - 1;
    FetchRequests(c, responses);
    LoopRequests(ps, 0, None, 0, 0);
    LoopRows(ps, 0, None, 0, 0);
    PassRowsContinuing(c, responses, 0, last);
    PassOfRequest(c, responses, last);
    PassMeaning(c, ResponseAt(responses, last));
  }

  /** Outcome and metrics of a whole run: it raises exactly what the response to its last
      request makes the loop raise; otherwise it reports one page per request except a
      final one finding no repository, one row per row put, and stop reason 1 exactly when
      the last page was cut at the watermark, which needs an active watermark. */
  lemma {:induction false} FetchOutcomeAndMetrics(c: Config, responses: seq<Response>)
    ensures var t := Fetch(c, responses);
            var n := |t.requests|;
            var r := ResponseAt(responses, n - 1);
            && (t.outcome.Failed? <==> RaisedBy(c, r).Some?)
            && (t.outcome.Failed? ==> t.outcome.cause == RaisedBy(c, r).value)
            && (t.outcome.Finished? ==>
                  && t.outcome.metrics == WorkerMetrics(
                       n - (if r.NoRepository? then 1 else 0),
                       |t.rows|,
                       if StoppedAtWatermark(c, r) then 1 else 0)
                  && (StoppedAtWatermark(c, r) ==> WatermarkActive(c)))
  {
    var ps := Passes(c, responses);
    var t := Fetch(c, responses);
    var n := |t.requests|;
    LoopRequests(ps, 0, None, 0, 0);
    LoopOutcome(ps, 0, None, 0, 0);
    forall i | 0 <= i < n - 1 ensures PassAt(ps, i).pageRead {
      LoopRequestAt(ps, 0, None, 0, 0, i);
      PassOfRequest(c, responses, i);
      ContinuingPassReadsPage(c, responses[i]);
    }
    ReadCountAll(ps, 0, n - 1);
    var r := ResponseAt(responses, n - 1);
    PassOfRequest(c, responses, n - 1);
    PassMeaning(c, r);
    StoppedNeedsWatermark(c, r);
  }

  lemma {:induction false} ContinuingPassReadsPage(c: Config, r: Response)
    ensures PassOn(c, r).next.Continue? ==> PassOn(c, r).pageRead
  {
  }

  /** Only an active watermark cuts a page. */
  lemma {:induction false} StoppedNeedsWatermark(c: Config, r: Response)
    ensures StoppedAtWatermark(c, r) ==> WatermarkActive(c)
  {
    if StoppedAtWatermark(c, r) {
      ScanEdgesMeaning(c, r.edges);
      EdgeVerdictMeaning(c, r.edges[|ScanEdges(c, r.edges).rows|]);
    }
  }

  /** Backfill, or no watermark, with every time parsing: the loop asks for the next page
      exactly while `hasNextPage` is true, and the stop reason stays 0. */
  lemma {:induction false} FetchWithoutWatermarkPaginates(c: Config, responses: seq<Response>)
    requires !WatermarkActive(c)
    requires AllTimesParse(c, responses)
    ensures var t := Fetch(c, responses);
            var last := ResponseAt(responses, |t.requests| - 1);
            && (forall i :: 0 <= i < |t.requests| - 1 ==> i < |responses| && AsksForMore(responses[i]))
            && !AsksForMore(last)
            && (t.outcome.Finished? ==> t.outcome.metrics.stopReasonWatermark == 0)
  {
    var t := Fetch(c, responses);
    FetchRequests(c, responses);
    FetchOutcomeAndMetrics(c, responses);
    var last := ResponseAt(responses, |t.requests| - 1);
    if last.Page? {
      assert |t.requests| - 1 < |responses| && responses[|t.requests| - 1] == last;
      ScanWithoutWatermark(c, last.edges);
    }
  }

  /** Backfill, or no watermark, with every time parsing: every edge of every page answered
      is put, in page order. */
  lemma {:induction false} FetchWithoutWatermarkPutsEverything(c: Config, responses: seq<Response>)
    requires !WatermarkActive(c)
    requires AllTimesParse(c, responses)
    ensures var t := Fetch(c, responses);
            var answered := if |t.requests| - 1 < |responses| then |t.requests| else |responses|;
            answered <= |responses| && t.rows == PageRows(c, responses, 0, answered)
  {
    var t := Fetch(c, responses);
    FetchRows(c, responses);
    var n := |t.requests|;
    if n - 1 < |responses| {
      var last := responses[n - 1];
      if last.Page? {
        ScanWithoutWatermark(c, last.edges);
      }
      PageRowsSnoc(c, responses, 0, n - 1);
    }
  }

  /** Incremental mode with a watermark: every row put has a `starred_at` strictly after it. */
  lemma {:induction false} FetchRowsAfterWatermark(c: Config, responses: seq<Response>)
    requires WatermarkActive(c)
    ensures forall i :: 0 <= i < |Fetch(c, responses).rows| ==> RowAfterWatermark(c, Fetch(c, responses).rows[i])
  {
    var ps := Passes(c, responses);
    var t := Fetch(c, responses);
    var last := |t.requests| - 1;
    LoopRows(ps, 0, None, 0, 0);
    PassRowsAfterWatermark(c, responses, 0, last + 1);
    PassRowsSnoc(ps, 0, last);
    var rows := PassRows(ps, 0, last + 1);
    assert t.rows == rows;
    forall i | 0 <= i < |t.rows| ensures RowAfterWatermark(c, t.rows[i]) {
      assert t.rows[i] == rows[i];
    }
  }

  lemma {:induction false} PassRowsSnoc(ps: seq<Pass>, from: nat, to: nat)
    requires from <= to
    ensures PassRows(ps, from, to + 1) == PassRows(ps, from, to) + PassAt(ps, to).rows
    decreases (to as int) - (from as int)
  {
    if from < to {
      PassRowsSnoc(ps, from + 1, to);
      assert PassAt(ps, from).rows + (PassRows(ps, from + 1, to) + PassAt(ps, to).rows)
             == (PassAt(ps, from).rows + PassRows(ps, from + 1, to)) + PassAt(ps, to).rows;
    } else {
      assert PassRows(ps, from, from) == [];
      assert PassRows(ps, from + 1, from + 1) == [];
    }
  }

  /** Incremental mode with a watermark: when page p is requested and its edge j is the first
      at or below the watermark, the run ends there with stop reason 1, having put every row
      of the earlier pages and of the edges before j, and requests no further page. */
  lemma {:induction false} FetchStopsAtWatermark(c: Config, responses: seq<Response>, p: nat, j: nat)
    requires WatermarkActive(c)
    requires p < |Fetch(c, responses).requests| && p < |responses| && responses[p].Page?
    requires j < |responses[p].edges|
    requires forall i :: 0 <= i < j ==> StrictlyAfterWatermark(c, responses[p].edges[i])
    requires EdgeVerdict(c, responses[p].edges[j]) == Ok(false)
    ensures var t := Fetch(c, responses);
            && |t.requests| == p + 1
            && t.outcome.Finished? && t.outcome.metrics.stopReasonWatermark == 1
            && t.rows == PageRows(c, responses, 0, p) + RowsOf(c, responses[p].edges[..j])
  {
    var t := Fetch(c, responses);
    var edges := responses[p].edges;
    forall i | 0 <= i < j ensures EdgeVerdict(c, edges[i]) == Ok(true) {
      EdgeVerdictMeaning(c, edges[i]);
    }
    ScanDetermined(c, edges, j);
    FetchRequests(c, responses);
    FetchRows(c, responses);
    FetchOutcomeAndMetrics(c, responses);
  }

  /** A response with an "errors" key: when the loop reaches it, the run raises before any
      row of it is put, and the rows of the earlier pages stay put (no rollback). */
  lemma {:induction false} FetchErrorPayload(c: Config, responses: seq<Response>, p: nat)
    requires p < |responses| && responses[p].ErrorPayload?
    requires forall i :: 0 <= i < p ==> Continues(c, responses[i])
    ensures var t := Fetch(c, responses);
            && |t.requests| == p + 1
            && t.outcome == Failed(GraphQLErrors)
            && t.rows == PageRows(c, responses, 0, p)
  {
    var t := Fetch(c, responses);
    FetchRequests(c, responses);
    FetchRows(c, responses);
    FetchOutcomeAndMetrics(c, responses);
  }

  /** A page without `pageInfo`, reached after pages that let the loop go on and not cut at
      the watermark: every accepted edge of it is put, and only then does the run raise. */
  lemma {:induction false} FetchMissingPageInfo(c: Config, responses: seq<Response>, p: nat)
    requires p < |responses| && responses[p].Page? && responses[p].pageInfo.None?
    requires forall i :: 0 <= i < p ==> Continues(c, responses[i])
    requires !ScanEdges(c, responses[p].edges).stopped && ScanEdges(c, responses[p].edges).failure.None?
    ensures var t := Fetch(c, responses);
            && |t.requests| == p + 1
            && t.outcome == Failed(MalformedPayload)
            && t.rows == PageRows(c, responses, 0, p + 1)
  {
    var t := Fetch(c, responses);
    var edges := responses[p].edges;
    FetchRequests(c, responses);
    FetchRows(c, responses);
    FetchOutcomeAndMetrics(c, responses);
    ScanEdgesMeaning(c, edges);
    assert edges[..|edges|] == edges;
    PageRowsSnoc(c, responses, 0, p);
  }

  /** The `for edge in sg["edges"]` loop of `fetch_repo_to_queue`: puts the row of each
      accepted edge on the queue, and reports how many it put, whether it stopped at the
      watermark, and what it raised. */
  method PutPageRows(c: Config, edges: seq<Edge>, outQueue: MessageQueue)
    returns (put: nat, stopped: bool, failure: Option<Cause>)
    modifies outQueue
    ensures put <= |edges|
    ensures !(stopped && failure.Some?)
    ensures !stopped && failure.None? ==> put == |edges|
    ensures ScanEdges(c, edges) == EdgeScan(RowsOf(c, edges[..put]), stopped, failure)
    ensures outQueue.items == old(outQueue.items) + DataMessages(RowsOf(c, edges[..put]))
  {
    put, stopped, failure := 0, false, None;
    while put < |edges|
      invariant 0 <= put <= |edges|
      invariant forall i :: 0 <= i < put ==> EdgeVerdict(c, edges[i]) == Ok(true)
      invariant outQueue.items == old(outQueue.items) + DataMessages(RowsOf(c, edges[..put]))
    {
      var edge := edges[put];
      var verdict := EdgeVerdict(c, edge);
      if verdict.Err? {
        failure := Some(verdict.error);
        break;
      }
      if !verdict.value {
        stopped := true;
        break;
      }
      ghost var rowsSoFar := RowsOf(c, edges[..put]);
      outQueue.Put(Data(RowOf(c, edge)));
      DataMessagesAppend(old(outQueue.items), rowsSoFar, [RowOf(c, edge)]);
      assert DataMessages([RowOf(c, edge)]) == [Data(RowOf(c, edge))];
      assert edges[..put + 1] == edges[..put] + [edge];
      assert RowsOf(c, edges[..put + 1]) == rowsSoFar + [RowOf(c, edge)];
      put := put + 1;
    }
    ScanDetermined(c, edges, put);
  }

  /** One pass of the loop of `fetch_repo_to_queue` on its request's response: the checks
      on the response, and the page's edges put on the queue. */
  method RunPass(c: Config, r: Response, outQueue: MessageQueue)
    returns (put: nat, pageRead: bool, next: Next)
    modifies outQueue
    ensures var it := PassOn(c, r);
            && put == |it.rows| && pageRead == it.pageRead && next == it.next
            && outQueue.items == old(outQueue.items) + DataMessages(it.rows)
  {
    put, pageRead := 0, false;
    match r {
      case HttpFailure =>
        next := Raise(TransportFailure);
      case ErrorPayload =>
        next := Raise(GraphQLErrors);
      case Malformed =>
        next := Raise(MalformedPayload);
      case NoRepository =>
        next := Stop(0);
      case Page(edges, info) =>
        pageRead := true;
        var stopped, failure;
        put, stopped, failure := PutPageRows(c, edges, outQueue);
        if failure.Some? {
          next := Raise(failure.value);
        } else if stopped {
          next := Stop(1);
        } else if info.None? {
          // sg["pageInfo"] raises after the page's rows are put
          next := Raise(MalformedPayload);
        } else if info.value.hasNextPage {
          next := Continue(info.value.endCursor);
        } else {
          next := Stop(0);
        }
    }
  }

  /** `fetch_repo_to_queue`: each row goes onto the queue as soon as its edge is accepted;
      the repository's metrics are written only when the loop ends normally. */
  method FetchRepoToQueue(c: Config, responses: seq<Response>, outQueue: MessageQueue, metrics: MetricsTable)
    returns (requests: seq<Option<string>>, outcome: FetchOutcome)
    modifies outQueue, metrics
    ensures requests == Fetch(c, responses).requests && outcome == Fetch(c, responses).outcome
    ensures outQueue.items == old(outQueue.items) + DataMessages(Fetch(c, responses).rows)
    ensures outcome.Finished? ==> metrics.entries == old(metrics.entries)[c.repoFullName := outcome.metrics]
    ensures outcome.Failed? ==> metrics.entries == old(metrics.entries)
  {
    var cursor: Option<string> := None;
    var pages: nat := 0;
    var yielded: nat := 0;
    var stopReason: nat := 0;
    ghost var emitted: seq<StarRow> := [];
    ghost var ps := Passes(c, responses);
    ghost var whole := Fetch(c, responses);
    requests := [];
    var k: nat := 0;
    while true
      invariant yielded == |emitted|
      invariant whole ==
                  var rest := LoopFrom(ps, k, cursor, pages, yielded);
                  FetchTrace(emitted + rest.rows, requests + rest.requests, rest.outcome)
      invariant outQueue.items == old(outQueue.items) + DataMessages(emitted)
      invariant metrics.entries == old(metrics.entries)
      decreases |responses| - k
    {
      LoopStep(ps, k, cursor, pages, yielded, whole, emitted, requests);
      PassOfRequest(c, responses, k);
      ghost var it := PassAt(ps, k);
      requests := requests + [cursor];
      // the request: a response beyond the sequence is the timeout
      var response := if k < |responses| then responses[k] else HttpFailure;
      var put, pageRead, next := RunPass(c, response, outQueue);
      DataMessagesAppend(old(outQueue.items), emitted, it.rows);
      emitted := emitted + it.rows;
      yielded := yielded + put;
      if pageRead {
        pages := pages + 1;
      }
      match next {
        case Raise(cause) =>
          outcome := Failed(cause);
          return;
        case Stop(reason) =>
          stopReason := reason;
          break;
        case Continue(nextCursor) =>
          k := k + 1;
          cursor := nextCursor;
      }
    }
    metrics.Set(c.repoFullName, WorkerMetrics(pages, yielded, stopReason));
    outcome := Finished(WorkerMetrics(pages, yielded, stopReason));
  }
}
