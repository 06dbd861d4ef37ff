/**
 * The values that travel between the workers and the consumer: stargazer rows, the
 * per-repository metrics, the exceptions a worker can raise, and the messages on the
 * shared queue (rows, plus the done and error control messages that the loader marks
 * with sentinel objects).
 */
module Records {
  import opened Timestamps

  /** The row dictionary a worker puts on the queue. `starredAt` is the string the API
      returned, not the parsed value. */
  datatype StarRow = StarRow(
    repoFullName: string,
    login: string,
    userId: int,
    starredAt: string,
    extractedAt: string)

  /** `metrics[repo_full_name]`: pages fetched, rows yielded, and the stop reason
      (0 = exhausted, 1 = watermark). */
  datatype WorkerMetrics = WorkerMetrics(pages: nat, yielded: nat, stopReasonWatermark: nat)

  /** The exceptions a worker's fetch can raise. */
  datatype Cause =
    | TransportFailure             // session.post, raise_for_status or resp.json() raised
    | GraphQLErrors                // the payload carries an "errors" key
    | MalformedPayload             // the payload's structure makes a lookup raise
    | Timestamp(error: TimeError)  // parse_github_ts or the watermark comparison raised
    | MalformedSlug                // a repository slug without '/'

  /** A message on the shared queue. */
  datatype Message =
    | Data(row: StarRow)
    | Done(slug: string)
    | Error(slug: string, cause: Cause)

  /** The rows, each wrapped as a data message, in order. */
  function DataMessages(rows: seq<StarRow>): (ms: seq<Message>)
    ensures |ms| == |rows|
    ensures forall i :: 0 <= i < |rows| ==> ms[i] == Data(rows[i])
  {
    seq(|rows|, i requires 0 <= i < |rows| => Data(rows[i]))
  }

  lemma {:induction false} DataMessagesConcat(a: seq<StarRow>, b: seq<StarRow>)
    ensures DataMessages(a + b) == DataMessages(a) + DataMessages(b)
  {
    forall i | 0 <= i < |a + b|
      ensures DataMessages(a + b)[i] == (DataMessages(a) + DataMessages(b))[i]
    {
      if i < |a| {
        assert (a + b)[i] == a[i];
      } else {
        assert (a + b)[i] == b[i - |a|];
      }
    }
  }

  /** Putting the messages of a and then those of b after some earlier messages. */
  lemma {:induction false} DataMessagesAppend(before: seq<Message>, a: seq<StarRow>, b: seq<StarRow>)
    ensures before + DataMessages(a) + DataMessages(b) == before + DataMessages(a + b)
  {
    DataMessagesConcat(a, b);
  }

  /** The rows the data messages carry, in order; control messages carry none. */
  function DataRows(ms: seq<Message>): seq<StarRow>
  {
    if ms == [] then [] else (if ms[0].Data? then [ms[0].row] else []) + DataRows(ms[1..])
  }

  lemma {:induction false} DataRowsConcat(a: seq<Message>, b: seq<Message>)
    ensures DataRows(a + b) == DataRows(a) + DataRows(b)
  {
    if a != [] {
      DataRowsConcat(a[1..], b);
      assert (a + b)[1..] == a[1..] + b;
    } else {
      assert a + b == b;
    }
  }

  /** Wrapping rows as messages loses nothing: the rows come back out, in order. */
  lemma {:induction false} DataRowsOfDataMessages(rows: seq<StarRow>)
    ensures DataRows(DataMessages(rows)) == rows
  {
    if rows != [] {
      DataRowsOfDataMessages(rows[1..]);
      assert DataMessages(rows)[1..] == DataMessages(rows[1..]);
    }
  }

  /** The number of done messages. */
  function DoneCount(ms: seq<Message>): nat
  {
    if ms == [] then 0 else (if ms[0].Done? then 1 else 0) + DoneCount(ms[1..])
  }

  lemma {:induction false} DoneCountConcat(a: seq<Message>, b: seq<Message>)
    ensures DoneCount(a + b) == DoneCount(a) + DoneCount(b)
  {
    if a != [] {
      DoneCountConcat(a[1..], b);
      assert (a + b)[1..] == a[1..] + b;
    } else {
      assert a + b == b;
    }
  }

  /** Messages none of which is done count no done message. */
  lemma {:induction false} DoneCountWithoutDone(ms: seq<Message>)
    requires forall i :: 0 <= i < |ms| ==> !ms[i].Done?
    ensures DoneCount(ms) == 0
  {
    if ms != [] {
      assert forall i :: 0 <= i < |ms[1..]| ==> ms[1..][i] == ms[i + 1];
      DoneCountWithoutDone(ms[1..]);
    }
  }

  predicate NoError(ms: seq<Message>)
  {
    forall i :: 0 <= i < |ms| ==> !ms[i].Error?
  }

  /** The shape of what one worker puts: its rows, at most one error, and then its done
      message, which is the last thing it puts. */
  predicate WellFormed(s: seq<Message>)
  {
    && |s| >= 1 && s[|s| - 1].Done?
    && (forall i :: 0 <= i < |s| - 2 ==> s[i].Data?)
    && (|s| >= 2 ==> !s[|s| - 2].Done?)
  }

  /** A well-formed stream holds exactly one done message, at its end: a proper prefix
      holds none. */
  lemma {:induction false} WellFormedPrefix(s: seq<Message>, j: nat)
    requires WellFormed(s) && j <= |s|
    ensures j < |s| ==> DoneCount(s[..j]) == 0
    ensures j == |s| ==> DoneCount(s[..j]) == 1
  {
    var body := s[..|s| - 1];
    assert forall i :: 0 <= i < |body| ==> !body[i].Done?;
    DoneCountWithoutDone(body);
    if j < |s| {
      assert forall i :: 0 <= i < j ==> s[..j][i] == body[i];
      DoneCountWithoutDone(s[..j]);
    } else {
      assert s[..j] == body + [s[|s| - 1]];
      DoneCountConcat(body, [s[|s| - 1]]);
    }
  }

  /** In a well-formed stream an error can only come just before the done message. */
  lemma {:induction false} WellFormedErrorAt(s: seq<Message>, p: nat)
    requires WellFormed(s) && p < |s| && s[p].Error?
    ensures p == |s| - 2
  {
  }
}

/** The structures more than one actor mutates: the shared queue and the metrics map. */
module SharedState {
  import opened Records

  /** The shared `Queue`: `items` is everything put on it, in order. Blocking and the
      `maxsize` bound are not modelled. */
  class MessageQueue {
    var items: seq<Message>

    constructor ()
      ensures items == []
    {
      items := [];
    }

    method Put(m: Message)
      modifies this
      ensures items == old(items) + [m]
    {
      items := items + [m];
    }
  }

  /** A `Dict[str, Dict[str, int]]` of per-repository metrics. */
  class MetricsTable {
    var entries: map<string, WorkerMetrics>

    constructor ()
      ensures entries == map[]
    {
      entries := map[];
    }

    /** `metrics[key] = value`. */
    method Set(key: string, value: WorkerMetrics)
      modifies this
      ensures entries == old(entries)[key := value]
    {
      entries := entries[key := value];
    }

    /** `metrics.update(other)`: the other table's entries win on shared keys. */
    method Update(other: MetricsTable)
      modifies this
      ensures entries == old(entries) + old(other.entries)
    {
      entries := entries + other.entries;
    }
  }
}
