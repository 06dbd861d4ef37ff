/**
 * `get_repo_watermarks`: the rows a max-per-repository query returns, folded into a
 * map from repository full name to the newest `starred_at` already stored.
 * The SQL itself is an oracle: its outcome (an exception, or the rows) is an input.
 */
module Watermarks {
  import opened Wrappers
  import opened Timestamps

  /** The `max_starred_at` column of one result row. */
  datatype Cell = Null | Text(text: string) | Stamp(stamp: DateTime)

  datatype Row = Row(repoFullName: string, maxStarredAt: Cell)

  /** What `client.execute_sql` did: raised (the table does not exist yet) or returned rows. */
  datatype QueryOutcome = QueryRaised | QueryRows(rows: seq<Row>)

  /** How a string cell is treated: as the loader does (parsed, then kept as parsed), or
      normalised to UTC like a typed value. */
  datatype TextPolicy = AsWritten | UtcNormalised

  /** The typed branch: a naive value is tagged UTC, an aware value is converted. */
  function StampToUtc(d: DateTime): (r: DateTime)
    ensures IsUtc(r)
    ensures !IsAware(d) ==> r.wall == d.wall
    ensures IsAware(d) ==> Instant(r) == Instant(d)
  {
    if IsAware(d) then AsTimezoneUtc(d) else ReplaceWithUtc(d)
  }

  /** One cell: skipped (`None`), a watermark, or the parser's exception. */
  function NormalizeCell(iso: IsoParser, policy: TextPolicy, c: Cell): (r: Result<Option<DateTime>, TimeError>)
    ensures r == Ok(None) <==> c.Null?
    ensures r.Err? ==> c.Text? && ParseGithubTs(iso, c.text).Err?
    ensures c.Stamp? ==> r == Ok(Some(StampToUtc(c.stamp)))
  {
    match c
    case Null => Ok(None)
    case Stamp(d) => Ok(Some(StampToUtc(d)))
    case Text(s) =>
      match ParseGithubTs(iso, s)
      case Err(e) => Err(e)
      case Ok(d) => Ok(Some(if policy == AsWritten then d else StampToUtc(d)))
  }

  /** The loop over the rows, from an accumulated map: later rows overwrite earlier ones,
      and the first exception ends the fold. */
  function Collect(iso: IsoParser, policy: TextPolicy, rows: seq<Row>, acc: map<string, DateTime>)
    : Result<map<string, DateTime>, TimeError>
    decreases |rows|
  {
    if rows == [] then Ok(acc)
    else
      match NormalizeCell(iso, policy, rows[0].maxStarredAt)
      case Err(e) => Err(e)
      case Ok(None) => Collect(iso, policy, rows[1..], acc)
      case Ok(Some(d)) => Collect(iso, policy, rows[1..], acc[rows[0].repoFullName := d])
  }

  /** The watermarks for a query outcome under a text policy: empty when the query raised. */
  function WatermarksWith(iso: IsoParser, policy: TextPolicy, q: QueryOutcome): (r: Result<map<string, DateTime>, TimeError>)
    ensures q.QueryRaised? ==> r == Ok(map[])
  {
    match q
    case QueryRaised => Ok(map[])
    case QueryRows(rows) => Collect(iso, policy, rows, map[])
  }

  /** `get_repo_watermarks` as written. */
  method GetRepoWatermarks(iso: IsoParser, q: QueryOutcome) returns (r: Result<map<string, DateTime>, TimeError>)
    ensures r == WatermarksWith(iso, AsWritten, q)
  {
    if q.QueryRaised? {
      return Ok(map[]);
    }
    var rows := q.rows;
    var out: map<string, DateTime> := map[];
    var i := 0;
    while i < |rows|
      invariant 0 <= i <= |rows|
      invariant Collect(iso, AsWritten, rows, map[]) == Collect(iso, AsWritten, rows[i..], out)
    {
      assert rows[i..][1..] == rows[i + 1..];
      var row := rows[i];
      var dt: DateTime;
      match row.maxStarredAt {
        case Null =>
          i := i + 1;
          continue;
        case Text(s) =>
          var parsed := ParseGithubTs(iso, s);
          if parsed.Err? {
            return Err(parsed.error);
          }
          dt := parsed.value;
        case Stamp(d) =>
          dt := d;
          if !IsAware(dt) {
            dt := ReplaceWithUtc(dt);
          } else {
            dt := AsTimezoneUtc(dt);
          }
      }
      out := out[row.repoFullName := dt];
      i := i + 1;
    }
    assert rows[i..] == [];
    r := Ok(out);
  }

  predicate HasValueFor(rows: seq<Row>, k: string)
  {
    exists i :: 0 <= i < |rows| && rows[i].repoFullName == k && !rows[i].maxStarredAt.Null?
  }

  predicate SomeTextFails(iso: IsoParser, rows: seq<Row>)
  {
    exists i :: 0 <= i < |rows| && rows[i].maxStarredAt.Text? && ParseGithubTs(iso, rows[i].maxStarredAt.text).Err?
  }

  lemma {:induction false} CollectKeys(iso: IsoParser, policy: TextPolicy, rows: seq<Row>, acc: map<string, DateTime>, k: string)
    requires Collect(iso, policy, rows, acc).Ok?
    ensures k in Collect(iso, policy, rows, acc).value <==> k in acc || HasValueFor(rows, k)
    decreases |rows|
  {
    if rows != [] {
      var n := NormalizeCell(iso, policy, rows[0].maxStarredAt);
      var acc' := if n.value.Some? then acc[rows[0].repoFullName := n.value.value] else acc;
      CollectKeys(iso, policy, rows[1..], acc', k);
      if HasValueFor(rows[1..], k) {
        var i :| 0 <= i < |rows[1..]| && rows[1..][i].repoFullName == k && !rows[1..][i].maxStarredAt.Null?;
        assert rows[i + 1] == rows[1..][i];
      }
      if HasValueFor(rows, k) && !HasValueFor(rows[1..], k) {
        var i :| 0 <= i < |rows| && rows[i].repoFullName == k && !rows[i].maxStarredAt.Null?;
        if i > 0 { assert rows[1..][i - 1] == rows[i]; }
      }
    }
  }

  /** The fold raises exactly when some string cell fails to parse. */
  lemma {:induction false} CollectFails(iso: IsoParser, policy: TextPolicy, rows: seq<Row>, acc: map<string, DateTime>)
    ensures Collect(iso, policy, rows, acc).Err? <==> SomeTextFails(iso, rows)
    decreases |rows|
  {
    if rows != [] {
      var n := NormalizeCell(iso, policy, rows[0].maxStarredAt);
      if n.Ok? {
        var acc' := if n.value.Some? then acc[rows[0].repoFullName := n.value.value] else acc;
        CollectFails(iso, policy, rows[1..], acc');
        if SomeTextFails(iso, rows[1..]) {
          var i :| 0 <= i < |rows[1..]| && rows[1..][i].maxStarredAt.Text? && ParseGithubTs(iso, rows[1..][i].maxStarredAt.text).Err?;
          assert rows[i + 1] == rows[1..][i];
        }
        if SomeTextFails(iso, rows) {
          var i :| 0 <= i < |rows| && rows[i].maxStarredAt.Text? && ParseGithubTs(iso, rows[i].maxStarredAt.text).Err?;
          assert i > 0;
          assert rows[1..][i - 1] == rows[i];
        }
      } else {
        assert rows[0].maxStarredAt.Text? && ParseGithubTs(iso, rows[0].maxStarredAt.text).Err?;
      }
    }
  }

  /** A repository that appears in exactly one row gets that row's normalised value. */
  lemma {:induction false} CollectValue(iso: IsoParser, policy: TextPolicy, rows: seq<Row>, acc: map<string, DateTime>, i: nat)
    requires Collect(iso, policy, rows, acc).Ok?
    requires i < |rows| && !rows[i].maxStarredAt.Null?
    requires forall j :: 0 <= j < |rows| && j != i ==> rows[j].repoFullName != rows[i].repoFullName
    ensures NormalizeCell(iso, policy, rows[i].maxStarredAt).Ok?
    ensures rows[i].repoFullName in Collect(iso, policy, rows, acc).value
    ensures Collect(iso, policy, rows, acc).value[rows[i].repoFullName]
            == NormalizeCell(iso, policy, rows[i].maxStarredAt).value.value
    decreases |rows|
  {
    var n := NormalizeCell(iso, policy, rows[0].maxStarredAt);
    var acc' := if n.value.Some? then acc[rows[0].repoFullName := n.value.value] else acc;
    if i == 0 {
      CollectUntouched(iso, policy, rows[1..], acc', rows[0].repoFullName);
    } else {
      assert rows[1..][i - 1] == rows[i];
      forall j | 0 <= j < |rows[1..]| && j != i - 1
        ensures rows[1..][j].repoFullName != rows[1..][i - 1].repoFullName
      {
        assert rows[1..][j] == rows[j + 1];
      }
      CollectValue(iso, policy, rows[1..], acc', i - 1);
    }
  }

  /** A key no row mentions keeps its accumulated value. */
  lemma {:induction false} CollectUntouched(iso: IsoParser, policy: TextPolicy, rows: seq<Row>, acc: map<string, DateTime>, k: string)
    requires Collect(iso, policy, rows, acc).Ok?
    requires k in acc
    requires forall j :: 0 <= j < |rows| ==> rows[j].repoFullName != k
    ensures k in Collect(iso, policy, rows, acc).value
    ensures Collect(iso, policy, rows, acc).value[k] == acc[k]
    decreases |rows|
  {
    if rows != [] {
      var n := NormalizeCell(iso, policy, rows[0].maxStarredAt);
      var acc' := if n.value.Some? then acc[rows[0].repoFullName := n.value.value] else acc;
      assert rows[0].repoFullName != k;
      forall j | 0 <= j < |rows[1..]| ensures rows[1..][j].repoFullName != k {
        assert rows[1..][j] == rows[j + 1];
      }
      CollectUntouched(iso, policy, rows[1..], acc', k);
    }
  }

  /** The fold keeps every value in UTC when strings are normalised or there are none. */
  lemma {:induction false} CollectAllUtc(iso: IsoParser, policy: TextPolicy, rows: seq<Row>, acc: map<string, DateTime>)
    requires Collect(iso, policy, rows, acc).Ok?
    requires forall k :: k in acc ==> IsUtc(acc[k])
    requires policy == UtcNormalised || forall j :: 0 <= j < |rows| ==> !rows[j].maxStarredAt.Text?
    ensures forall k :: k in Collect(iso, policy, rows, acc).value ==> IsUtc(Collect(iso, policy, rows, acc).value[k])
    decreases |rows|
  {
    if rows != [] {
      var n := NormalizeCell(iso, policy, rows[0].maxStarredAt);
      var acc' := if n.value.Some? then acc[rows[0].repoFullName := n.value.value] else acc;
      assert policy == AsWritten ==> !rows[0].maxStarredAt.Text?;
      assert policy == UtcNormalised || forall j :: 0 <= j < |rows[1..]| ==> !rows[1..][j].maxStarredAt.Text? by {
        if policy == AsWritten {
          forall j | 0 <= j < |rows[1..]| ensures !rows[1..][j].maxStarredAt.Text? {
            assert rows[1..][j] == rows[j + 1];
          }
        }
      }
      CollectAllUtc(iso, policy, rows[1..], acc');
    }
  }

  /** The result has a key exactly for each repository with a non-null maximum, and the
      loader raises exactly when a string maximum fails to parse. */
  lemma {:induction false} WatermarkKeysAndFailures(iso: IsoParser, rows: seq<Row>, k: string)
    ensures WatermarksWith(iso, AsWritten, QueryRows(rows)).Err? <==> SomeTextFails(iso, rows)
    ensures WatermarksWith(iso, AsWritten, QueryRows(rows)).Ok? ==>
              (k in WatermarksWith(iso, AsWritten, QueryRows(rows)).value <==> HasValueFor(rows, k))
  {
    CollectFails(iso, AsWritten, rows, map[]);
    if !SomeTextFails(iso, rows) {
      CollectKeys(iso, AsWritten, rows, map[], k);
    }
  }

  /** Typed maxima (no strings): naive values are tagged UTC with no shift, aware values
      keep their instant, and so every watermark is in UTC. */
  lemma {:induction false} TypedWatermarksAreUtc(iso: IsoParser, rows: seq<Row>, i: nat)
    requires forall j :: 0 <= j < |rows| ==> !rows[j].maxStarredAt.Text?
    requires i < |rows| && rows[i].maxStarredAt.Stamp?
    requires forall j :: 0 <= j < |rows| && j != i ==> rows[j].repoFullName != rows[i].repoFullName
    ensures WatermarksWith(iso, AsWritten, QueryRows(rows)).Ok?
    ensures var m := WatermarksWith(iso, AsWritten, QueryRows(rows)).value;
            var d := rows[i].maxStarredAt.stamp;
            && (forall k :: k in m ==> IsUtc(m[k]))
            && rows[i].repoFullName in m
            && (!IsAware(d) ==> m[rows[i].repoFullName].wall == d.wall)
            && (IsAware(d) ==> Instant(m[rows[i].repoFullName]) == Instant(d))
  {
    CollectFails(iso, AsWritten, rows, map[]);
    CollectAllUtc(iso, AsWritten, rows, map[]);
    CollectValue(iso, AsWritten, rows, map[], i);
  }

  /** As written, a string maximum without an offset gives a naive watermark, and the
      worker's `starred_at_dt <= watermark` with an aware edge time then raises. */
  lemma {:induction false} TextWatermarkStaysNaive(iso: IsoParser, repo: string, s: string, edgeTime: DateTime)
    requires iso(RewriteZ(s)).Some? && !IsAware(iso(RewriteZ(s)).value)
    requires IsAware(edgeTime)
    ensures var m := WatermarksWith(iso, AsWritten, QueryRows([Row(repo, Text(s))]));
            && m == Ok(map[repo := iso(RewriteZ(s)).value])
            && !IsUtc(m.value[repo])
            && LessOrEqual(edgeTime, m.value[repo]) == Err(NaiveAwareComparison)
  {
    var rows := [Row(repo, Text(s))];
    var d := iso(RewriteZ(s)).value;
    assert NormalizeCell(iso, AsWritten, rows[0].maxStarredAt) == Ok(Some(d));
    assert rows[1..] == [];
    assert Collect(iso, AsWritten, rows, map[]) == Collect(iso, AsWritten, [], map[repo := d]);
  }

  /** With strings normalised like typed values, every watermark is in UTC. */
  lemma {:induction false} NormalisedWatermarksAreUtc(iso: IsoParser, q: QueryOutcome)
    requires WatermarksWith(iso, UtcNormalised, q).Ok?
    ensures forall k :: k in WatermarksWith(iso, UtcNormalised, q).value ==> IsUtc(WatermarksWith(iso, UtcNormalised, q).value[k])
  {
    if q.QueryRows? {
      CollectAllUtc(iso, UtcNormalised, q.rows, map[]);
    }
  }

  /** With strings normalised, a string maximum and the typed value it parses to give the
      same watermark. */
  lemma {:induction false} NormalisedRepresentationsAgree(iso: IsoParser, s: string)
    requires iso(RewriteZ(s)).Some?
    ensures NormalizeCell(iso, UtcNormalised, Text(s)) == NormalizeCell(iso, UtcNormalised, Stamp(iso(RewriteZ(s)).value))
  {
  }
}
