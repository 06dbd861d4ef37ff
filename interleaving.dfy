/**
 * The workers run concurrently, so the consumer sees their messages interleaved. An
 * interleaving is the sequence of puts on the shared queue, each tagged with the worker
 * (the index of its repository in the configuration) that made it; read worker by
 * worker it gives back what each worker put. These theorems hold for every interleaving.
 */
module Interleaving {
  import opened Wrappers
  import opened Records
  import opened Draining
  import opened Coordinator
  import opened Fetcher

  /** One `q.put` by worker `worker`. */
  datatype Put = Put(worker: nat, msg: Message)

  /** The queue's contents, in the order the consumer takes them. */
  function Messages(puts: seq<Put>): (ms: seq<Message>)
    ensures |ms| == |puts|
    ensures forall i :: 0 <= i < |puts| ==> ms[i] == puts[i].msg
  {
    seq(|puts|, i requires 0 <= i < |puts| => puts[i].msg)
  }

  /** The messages of worker w, in the order it put them. */
  function Project(puts: seq<Put>, w: nat): seq<Message>
  {
    if puts == [] then []
    else
      var last := puts[|puts| - 1];
      Project(puts[..|puts| - 1], w) + (if last.worker == w then [last.msg] else [])
  }

  /** Every put comes from one of the workers, and each worker's puts, in order, are its
      stream. */
  predicate IsInterleaving(puts: seq<Put>, streams: seq<seq<Message>>)
  {
    && (forall i :: 0 <= i < |puts| ==> puts[i].worker < |streams|)
    && (forall w :: 0 <= w < |streams| ==> Project(puts, w) == streams[w])
  }

  /** The per-worker views of the puts. */
  function Projections(puts: seq<Put>, n: nat): (ss: seq<seq<Message>>)
    ensures |ss| == n
    ensures forall w :: 0 <= w < n ==> ss[w] == Project(puts, w)
  {
    seq(n, w requires 0 <= w < n => Project(puts, w))
  }

  /** The done messages of all the streams together. */
  function DoneTotal(ss: seq<seq<Message>>): nat
  {
    if ss == [] then 0 else DoneCount(ss[0]) + DoneTotal(ss[1..])
  }

  lemma {:induction false} DoneTotalUpdate(ss: seq<seq<Message>>, w: nat, x: seq<Message>)
    requires w < |ss|
    ensures DoneTotal(ss[w := x]) == DoneTotal(ss) - DoneCount(ss[w]) + DoneCount(x)
  {
    if w == 0 {
      assert ss[w := x][1..] == ss[1..];
    } else {
      assert ss[w := x][1..] == ss[1..][w - 1 := x];
      DoneTotalUpdate(ss[1..], w - 1, x);
    }
  }

  /** Streams with at most one done message each hold at most as many as there are
      streams, and fewer when one of them holds none. */
  lemma {:induction false} DoneTotalBound(ss: seq<seq<Message>>, w: nat)
    requires forall v :: 0 <= v < |ss| ==> DoneCount(ss[v]) <= 1
    ensures DoneTotal(ss) <= |ss|
    ensures w < |ss| && DoneCount(ss[w]) == 0 ==> DoneTotal(ss) < |ss|
  {
    if ss != [] {
      assert forall v :: 0 <= v < |ss[1..]| ==> ss[1..][v] == ss[v + 1];
      DoneTotalBound(ss[1..], if w == 0 then 0 else w - 1);
    }
  }

  /** Streams with exactly one done message each hold one per stream. */
  lemma {:induction false} DoneTotalOnePerStream(ss: seq<seq<Message>>)
    requires forall v :: 0 <= v < |ss| ==> DoneCount(ss[v]) == 1
    ensures DoneTotal(ss) == |ss|
  {
    if ss != [] {
      assert forall v :: 0 <= v < |ss[1..]| ==> ss[1..][v] == ss[v + 1];
      DoneTotalOnePerStream(ss[1..]);
    }
  }

  lemma {:induction false} DoneTotalNone(ss: seq<seq<Message>>)
    requires forall v :: 0 <= v < |ss| ==> DoneCount(ss[v]) == 0
    ensures DoneTotal(ss) == 0
  {
    if ss != [] {
      assert forall v :: 0 <= v < |ss[1..]| ==> ss[1..][v] == ss[v + 1];
      DoneTotalNone(ss[1..]);
    }
  }

  lemma {:induction false} DoneCountSingle(m: Message)
    ensures DoneCount([m]) == if m.Done? then 1 else 0
  {
    assert [m][1..] == [];
  }

  /** Counting done messages on the queue is counting them worker by worker. */
  lemma {:induction false} DoneCountSplits(puts: seq<Put>, n: nat)
    requires forall i :: 0 <= i < |puts| ==> puts[i].worker < n
    ensures DoneCount(Messages(puts)) == DoneTotal(Projections(puts, n))
  {
    if puts == [] {
      assert forall v :: 0 <= v < n ==> Projections(puts, n)[v] == [];
      DoneTotalNone(Projections(puts, n));
      assert Messages(puts) == [];
    } else {
      var init, last := puts[..|puts| - 1], puts[|puts| - 1];
      assert forall i :: 0 <= i < |init| ==> init[i] == puts[i];
      DoneCountSplits(init, n);
      var w := last.worker;
      assert Messages(puts) == Messages(init) + [last.msg];
      DoneCountConcat(Messages(init), [last.msg]);
      DoneCountSingle(last.msg);
      var before := Projections(init, n);
      forall v | 0 <= v < n
        ensures Projections(puts, n)[v] == before[w := before[w] + [last.msg]][v]
      {
        if v != w {
          assert Project(puts, v) == Project(init, v) + [];
        }
      }
      assert Projections(puts, n) == before[w := before[w] + [last.msg]];
      DoneTotalUpdate(before, w, before[w] + [last.msg]);
      DoneCountConcat(before[w], [last.msg]);
    }
  }

  /** A worker's view holds only messages that are on the queue. */
  lemma {:induction false} ProjectSubset(puts: seq<Put>, w: nat)
    ensures forall m :: m in Project(puts, w) ==> m in Messages(puts)
  {
    if puts != [] {
      var init, last := puts[..|puts| - 1], puts[|puts| - 1];
      ProjectSubset(init, w);
      assert Messages(puts) == Messages(init) + [last.msg];
    }
  }

  /** Every put is in the view of the worker that made it. */
  lemma {:induction false} MessageInProject(puts: seq<Put>, i: nat)
    requires i < |puts|
    ensures puts[i].msg in Project(puts, puts[i].worker)
  {
    var init, last := puts[..|puts| - 1], puts[|puts| - 1];
    if i < |puts| - 1 {
      assert init[i] == puts[i];
      MessageInProject(init, i);
    }
  }

  /** The queue holds no error exactly when no worker's stream does. */
  lemma {:induction false} NoErrorSplits(puts: seq<Put>, n: nat)
    requires forall i :: 0 <= i < |puts| ==> puts[i].worker < n
    ensures NoError(Messages(puts)) <==> forall w :: 0 <= w < n ==> NoError(Project(puts, w))
  {
    var ms := Messages(puts);
    if NoError(ms) {
      forall w | 0 <= w < n
        ensures NoError(Project(puts, w))
      {
        ProjectSubset(puts, w);
        var p := Project(puts, w);
        forall j | 0 <= j < |p|
          ensures !p[j].Error?
        {
          assert p[j] in ms;
        }
      }
    } else {
      var i :| 0 <= i < |ms| && ms[i].Error?;
      MessageInProject(puts, i);
      assert puts[i].msg.Error?;
    }
  }

  /** What each worker has put by some point is a prefix of everything it puts. */
  lemma {:induction false} ProjectPrefix(puts: seq<Put>, j: nat, w: nat)
    requires j <= |puts|
    ensures Project(puts[..j], w) <= Project(puts, w)
    decreases |puts|
  {
    if j < |puts| {
      var init := puts[..|puts| - 1];
      assert puts[..j] == init[..j];
      ProjectPrefix(init, j, w);
    } else {
      assert puts[..j] == puts;
    }
  }

  /** Put i adds its message to the view of the worker that made it. */
  lemma {:induction false} ProjectNext(puts: seq<Put>, i: nat)
    requires i < |puts|
    ensures Project(puts[..i + 1], puts[i].worker) == Project(puts[..i], puts[i].worker) + [puts[i].msg]
  {
    assert puts[..i + 1][..i] == puts[..i];
  }

  /** The position of the first error message. */
  function FirstError(ms: seq<Message>): (i: nat)
    requires !NoError(ms)
    ensures i < |ms| && ms[i].Error? && NoError(ms[..i])
  {
    if ms[0].Error? then 0
    else
      var i := 1 + FirstError(ms[1..]);
      var whole, rest := ms[..i], ms[1..][..i - 1];
      assert forall j :: 0 <= j < |rest| ==> whole[j + 1] == rest[j];
      i
  }

  /** The first error on the queue ends the drain: every worker's stream is well-formed,
      so the erring worker's done message is still to come and fewer than all done
      messages precede the error. The rows before it are yielded. */
  lemma {:induction false} InterleavedErrorRaises(puts: seq<Put>, streams: seq<seq<Message>>, i: nat)
    requires IsInterleaving(puts, streams)
    requires forall w :: 0 <= w < |streams| ==> WellFormed(streams[w])
    requires i < |puts| && puts[i].msg.Error? && NoError(Messages(puts)[..i])
    ensures Drain(Messages(puts), |streams|)
         == DrainResult(DataRows(Messages(puts)[..i]), Raised(puts[i].msg.slug, puts[i].msg.cause))
  {
    var n := |streams|;
    var before := puts[..i];
    var views := Projections(before, n);
    forall v | 0 <= v < n
      ensures DoneCount(views[v]) <= 1
    {
      ProjectPrefix(puts, i, v);
      var p := Project(before, v);
      assert p == streams[v][..|p|];
      WellFormedPrefix(streams[v], |p|);
    }
    var w := puts[i].worker;
    assert DoneCount(views[w]) == 0 by {
      var p := Project(before, w);
      ProjectNext(puts, i);
      ProjectPrefix(puts, i + 1, w);
      assert streams[w][|p|] == puts[i].msg;
      WellFormedErrorAt(streams[w], |p|);
      assert p == streams[w][..|p|];
      WellFormedPrefix(streams[w], |p|);
    }
    DoneTotalBound(views, w);
    DoneCountSplits(before, n);
    assert Messages(before) == Messages(puts)[..i];
    DrainRaises(Messages(puts), n, i);
  }

  /** Without an error on the queue, the drain completes and yields every row any worker
      put, in queue order. */
  lemma {:induction false} InterleavedCompletes(puts: seq<Put>, streams: seq<seq<Message>>)
    requires IsInterleaving(puts, streams)
    requires forall w :: 0 <= w < |streams| ==> WellFormed(streams[w])
    requires NoError(Messages(puts))
    ensures Drain(Messages(puts), |streams|) == DrainResult(DataRows(Messages(puts)), Completed)
  {
    var n := |streams|;
    var ms := Messages(puts);
    assert Projections(puts, n) == streams;
    forall v | 0 <= v < n
      ensures DoneCount(streams[v]) == 1
    {
      WellFormedPrefix(streams[v], |streams[v]|);
      assert streams[v][..|streams[v]|] == streams[v];
    }
    DoneTotalOnePerStream(streams);
    DoneCountSplits(puts, n);
    if puts != [] {
      var last := puts[|puts| - 1];
      var s := Project(puts, last.worker);
      assert s[|s| - 1] == last.msg;
    }
    DrainCompletes(ms);
  }

  /** Well-formed streams, however interleaved, never leave the consumer waiting: the
      drain raises the first error on the queue, or else completes with every row. */
  lemma {:induction false} WellFormedStreamsDrain(puts: seq<Put>, streams: seq<seq<Message>>)
    requires IsInterleaving(puts, streams)
    requires forall w :: 0 <= w < |streams| ==> WellFormed(streams[w])
    ensures var ms := Messages(puts);
            && (NoError(ms) ==> Drain(ms, |streams|) == DrainResult(DataRows(ms), Completed))
            && (!NoError(ms) ==>
                  var i := FirstError(ms);
                  Drain(ms, |streams|) == DrainResult(DataRows(ms[..i]), Raised(ms[i].slug, ms[i].cause)))
  {
    var ms := Messages(puts);
    if NoError(ms) {
      InterleavedCompletes(puts, streams);
    } else {
      InterleavedErrorRaises(puts, streams, FirstError(ms));
    }
  }

  /** Well-formed streams: the drain never waits for ever, it completes exactly when no
      stream holds an error, and then it has yielded every row on the queue. */
  lemma {:induction false} StreamsOutcome(puts: seq<Put>, streams: seq<seq<Message>>)
    requires IsInterleaving(puts, streams)
    requires forall w :: 0 <= w < |streams| ==> WellFormed(streams[w])
    ensures Drain(Messages(puts), |streams|).end != Blocked
    ensures Drain(Messages(puts), |streams|).end == Completed <==>
              forall w :: 0 <= w < |streams| ==> NoError(streams[w])
    ensures Drain(Messages(puts), |streams|).end == Completed ==>
              Drain(Messages(puts), |streams|).yielded == DataRows(Messages(puts))
  {
    var ms := Messages(puts);
    NoErrorSplits(puts, |streams|);
    forall w | 0 <= w < |streams|
      ensures NoError(Project(puts, w)) == NoError(streams[w])
    {
      assert Project(puts, w) == streams[w];
    }
    if NoError(ms) {
      InterleavedCompletes(puts, streams);
      forall w | 0 <= w < |streams|
        ensures NoError(streams[w])
      {
        assert NoError(Project(puts, w));
      }
    } else {
      InterleavedErrorRaises(puts, streams, FirstError(ms));
      assert Drain(ms, |streams|).end.Raised?;
      assert !(forall w :: 0 <= w < |streams| ==> NoError(Project(puts, w)));
      assert !(forall w :: 0 <= w < |streams| ==> NoError(streams[w]));
    }
  }

  /** Streams that are well-formed or empty, one of them empty, and no error anywhere:
      the drain yields every row and waits for ever. */
  lemma {:induction false} StreamsBlock(puts: seq<Put>, streams: seq<seq<Message>>, w: nat)
    requires IsInterleaving(puts, streams)
    requires forall v :: 0 <= v < |streams| ==> streams[v] == [] || WellFormed(streams[v])
    requires w < |streams| && streams[w] == []
    requires NoError(Messages(puts))
    ensures Drain(Messages(puts), |streams|) == DrainResult(DataRows(Messages(puts)), Blocked)
  {
    var n := |streams|;
    assert Projections(puts, n) == streams;
    forall v | 0 <= v < n
      ensures DoneCount(streams[v]) <= 1
    {
      if streams[v] != [] {
        WellFormedPrefix(streams[v], |streams[v]|);
        assert streams[v][..|streams[v]|] == streams[v];
      }
    }
    DoneTotalBound(streams, w);
    DoneCountSplits(puts, n);
    DrainBlocks(Messages(puts), n);
  }

  /** The streams the corrected wrappers send, one per configured repository. */
  function CorrectedStreams(run: Run, slugs: seq<string>, apis: seq<seq<Response>>): (ss: seq<seq<Message>>)
    requires |apis| == |slugs|
    ensures |ss| == |slugs|
    ensures forall w :: 0 <= w < |slugs| ==> ss[w] == WrapperStreamCorrected(run, slugs[w], apis[w])
  {
    seq(|slugs|, w requires 0 <= w < |slugs| => WrapperStreamCorrected(run, slugs[w], apis[w]))
  }

  /** With the corrected wrapper, the drain over any interleaving never waits for ever
      on a `get`: it completes, yielding every row on the queue, exactly when every worker succeeds, and
      otherwise raises the first error on the queue. */
  lemma {:induction false} CorrectedStreamsDrain(run: Run, slugs: seq<string>, apis: seq<seq<Response>>, puts: seq<Put>)
    requires |apis| == |slugs|
    requires IsInterleaving(puts, CorrectedStreams(run, slugs, apis))
    ensures var r := Drain(Messages(puts), |slugs|);
            && r.end != Blocked
            && (r.end == Completed <==> forall w :: 0 <= w < |slugs| ==> WorkerSucceeds(run, slugs[w], apis[w]))
            && (r.end == Completed ==> r.yielded == DataRows(Messages(puts)))
  {
    var streams := CorrectedStreams(run, slugs, apis);
    forall w | 0 <= w < |slugs|
      ensures WellFormed(streams[w])
      ensures NoError(streams[w]) <==> WorkerSucceeds(run, slugs[w], apis[w])
    {
      CorrectedStreamMeaning(run, slugs[w], apis[w]);
    }
    StreamsOutcome(puts, streams);
  }

  /** How a whole run of the generator ends: the pool refused its worker count before any
      worker started, or the workers ran and the consumer drained the queue. */
  datatype RunEnd = PoolRefused | Drained(result: DrainResult)

  /** A whole run: the pool is created with the worker count, then the workers put `puts`
      and the consumer drains them, awaiting one done message per repository. */
  function RunWith(count: Result<int, PoolError>, slugs: seq<string>, puts: seq<Put>): RunEnd
  {
    if count.Err? then PoolRefused else Drained(Drain(Messages(puts), |slugs|))
  }

  /** A run with the corrected wrapper and the corrected worker-count default. The pool
      refuses only an explicit negative count; otherwise the drain never waits for ever on
      a `get`, and it completes, yielding every row put, exactly when every worker
      succeeds, and else raises. */
  lemma {:induction false} CorrectedRunOutcome(run: Run, maxWorkers: Option<int>, slugs: seq<string>,
                                               apis: seq<seq<Response>>, puts: seq<Put>)
    requires |apis| == |slugs|
    requires IsInterleaving(puts, CorrectedStreams(run, slugs, apis))
    ensures var e := RunWith(WorkerCountCorrected(maxWorkers, |slugs|), slugs, puts);
            && (e.PoolRefused? <==> maxWorkers.Some? && maxWorkers.value < 0)
            && (e.Drained? ==>
                  && e.result.end != Blocked
                  && (e.result.end == Completed <==> forall w :: 0 <= w < |slugs| ==> WorkerSucceeds(run, slugs[w], apis[w]))
                  && (e.result.end == Completed ==> e.result.yielded == DataRows(Messages(puts))))
  {
    WorkerCountChoice(maxWorkers, |slugs|);
    WorkerCountCorrectedChoice(maxWorkers, |slugs|);
    CorrectedStreamsDrain(run, slugs, apis, puts);
  }

  /** As written, a run over no repositories with the default worker count fails when the
      pool is created; with the corrected default it completes at once, yielding nothing. */
  lemma {:induction false} EmptyConfigurationRun(puts: seq<Put>)
    ensures RunWith(WorkerCount(None, 0), [], puts) == PoolRefused
    ensures RunWith(WorkerCountCorrected(None, 0), [], []) == Drained(DrainResult([], Completed))
  {
  }

  /** The streams the wrappers send as written. */
  function AsWrittenStreams(run: Run, slugs: seq<string>, apis: seq<seq<Response>>): (ss: seq<seq<Message>>)
    requires |apis| == |slugs|
    ensures |ss| == |slugs|
    ensures forall w :: 0 <= w < |slugs| ==> ss[w] == WrapperStream(run, slugs[w], apis[w])
  {
    seq(|slugs|, w requires 0 <= w < |slugs| => WrapperStream(run, slugs[w], apis[w]))
  }

  /** When every configured slug has a '/', the wrappers as written send exactly what the
      corrected ones send, so the drain outcome of `CorrectedStreamsDrain` holds for them
      too. */
  lemma {:induction false} AsWrittenAgreesOnWellFormedSlugs(run: Run, slugs: seq<string>, apis: seq<seq<Response>>)
    requires |apis| == |slugs|
    requires forall w :: 0 <= w < |slugs| ==> '/' in slugs[w]
    ensures AsWrittenStreams(run, slugs, apis) == CorrectedStreams(run, slugs, apis)
  {
    forall w | 0 <= w < |slugs|
      ensures AsWrittenStreams(run, slugs, apis)[w] == CorrectedStreams(run, slugs, apis)[w]
    {
      WrapperStreamAsWritten(run, slugs[w], apis[w]);
    }
  }

  /** As written, one configured slug without '/' makes the run hang when no worker
      fails: that worker sends no done message, so the consumer yields every row and
      then waits for ever for the last one. */
  lemma {:induction false} AsWrittenMalformedSlugBlocks(run: Run, slugs: seq<string>, apis: seq<seq<Response>>, puts: seq<Put>, w: nat)
    requires |apis| == |slugs|
    requires IsInterleaving(puts, AsWrittenStreams(run, slugs, apis))
    requires w < |slugs| && '/' !in slugs[w]
    requires NoError(Messages(puts))
    ensures Drain(Messages(puts), |slugs|) == DrainResult(DataRows(Messages(puts)), Blocked)
  {
    var streams := AsWrittenStreams(run, slugs, apis);
    forall v | 0 <= v < |slugs|
      ensures streams[v] == [] || WellFormed(streams[v])
    {
      WrapperStreamAsWritten(run, slugs[v], apis[v]);
    }
    WrapperStreamAsWritten(run, slugs[w], apis[w]);
    StreamsBlock(puts, streams, w);
  }

  /** The smallest case: a single repository configured as "octocat". */
  lemma {:induction false} AsWrittenSingleMalformedSlug(run: Run, responses: seq<Response>)
    ensures IsInterleaving([], AsWrittenStreams(run, ["octocat"], [responses]))
    ensures Drain(Messages([]), 1) == DrainResult([], Blocked)
  {
    WrapperStreamAsWritten(run, "octocat", responses);
  }
}
