/**
 * The consumer side of `github_stargazers`: the loop that takes messages off the shared
 * queue until every repository has sent its done message, yielding rows and turning the
 * first error message into an exception.
 */
module Draining {
  import opened Records

  /** How the drain ends: every done message seen, an error message turned into the
      `RuntimeError` for its repository, or `q.get()` waiting for ever on a queue that no
      worker will put on again. */
  datatype DrainEnd = Completed | Raised(slug: string, cause: Cause) | Blocked

  /** The rows yielded to the pipeline, and how the drain ended. */
  datatype DrainResult = DrainResult(yielded: seq<StarRow>, end: DrainEnd)

  /** The drain over `items`, everything the workers put, in the order the consumer takes
      it, while `pending` done messages are still awaited. */
  function Drain(items: seq<Message>, pending: nat): DrainResult
    decreases |items|
  {
    if pending == 0 then DrainResult([], Completed)
    else if items == [] then DrainResult([], Blocked)
    else
      match items[0]
      case Done(_) => Drain(items[1..], pending - 1)
      case Error(slug, cause) => DrainResult([], Raised(slug, cause))
      case Data(row) =>
        var rest := Drain(items[1..], pending);
        DrainResult([row] + rest.yielded, rest.end)
  }

  /** One message taken off the queue. */
  lemma {:induction false} DrainStep(items: seq<Message>, k: nat, pending: nat)
    requires k < |items| && pending > 0
    ensures items[k].Done? ==> Drain(items[k..], pending) == Drain(items[k + 1..], pending - 1)
    ensures items[k].Error? ==> Drain(items[k..], pending) == DrainResult([], Raised(items[k].slug, items[k].cause))
    ensures items[k].Data? ==>
              Drain(items[k..], pending)
              == DrainResult([items[k].row] + Drain(items[k + 1..], pending).yielded, Drain(items[k + 1..], pending).end)
  {
    assert items[k..][0] == items[k] && items[k..][1..] == items[k + 1..];
  }

  /** The `while done_count < total_repos` loop. Reaching the end of `items` is the
      `q.get()` that never returns, reported as `Blocked`. */
  method DrainLoop(items: seq<Message>, totalRepos: nat) returns (yielded: seq<StarRow>, end: DrainEnd)
    ensures DrainResult(yielded, end) == Drain(items, totalRepos)
  {
    var doneCount: nat := 0;
    var k := 0;
    yielded := [];
    while doneCount < totalRepos
      invariant 0 <= k <= |items| && doneCount <= totalRepos
      invariant var rest := Drain(items[k..], totalRepos - doneCount);
                Drain(items, totalRepos) == DrainResult(yielded + rest.yielded, rest.end)
      decreases |items| - k
    {
      if k == |items| {
        assert items[k..] == [];
        return yielded, Blocked;
      }
      var item := items[k];
      DrainStep(items, k, totalRepos - doneCount);
      k := k + 1;
      match item {
        case Done(_) =>
          doneCount := doneCount + 1;
        case Error(slug, cause) =>
          // every future is cancelled and the error is raised
          return yielded, Raised(slug, cause);
        case Data(row) =>
          assert yielded + ([row] + Drain(items[k..], totalRepos - doneCount).yielded)
              == (yielded + [row]) + Drain(items[k..], totalRepos - doneCount).yielded;
          yielded := yielded + [row];
      }
    }
    assert yielded + [] == yielded;
    end := Completed;
  }

  /** Without errors, a queue that ends with a done message and holds n of them is drained
      to completion with n pending, and every row on it is yielded, in queue order. */
  lemma {:induction false} DrainCompletes(items: seq<Message>)
    requires NoError(items)
    requires items != [] ==> items[|items| - 1].Done?
    ensures Drain(items, DoneCount(items)) == DrainResult(DataRows(items), Completed)
  {
    if items != [] {
      var rest := items[1..];
      assert NoError(rest) by {
        assert forall i :: 0 <= i < |rest| ==> rest[i] == items[i + 1];
      }
      assert rest != [] ==> rest[|rest| - 1] == items[|items| - 1];
      DrainCompletes(rest);
      if items[0].Data? {
        assert |items| > 1;
      }
    }
  }

  /** The first error ends the drain, provided fewer done messages than awaited come
      before it: the rows before it are yielded and its repository and cause raised. */
  lemma {:induction false} DrainRaises(items: seq<Message>, pending: nat, i: nat)
    requires i < |items| && items[i].Error?
    requires NoError(items[..i])
    requires DoneCount(items[..i]) < pending
    ensures Drain(items, pending) == DrainResult(DataRows(items[..i]), Raised(items[i].slug, items[i].cause))
    decreases i
  {
    if i > 0 {
      var rest := items[1..];
      assert items[..i] == [items[0]] + rest[..i - 1];
      assert items[..i][1..] == rest[..i - 1];
      assert NoError(rest[..i - 1]) by {
        var before, whole := rest[..i - 1], items[..i];
        assert forall j :: 0 <= j < |before| ==> before[j] == whole[j + 1];
      }
      assert !items[0].Error? by {
        assert items[..i][0] == items[0];
      }
      var p := if items[0].Done? then pending - 1 else pending;
      DrainRaises(rest, p, i - 1);
    } else {
      assert items[..i] == [];
    }
  }

  /** Without errors and with fewer done messages than awaited, the drain yields every row
      and then waits for ever. */
  lemma {:induction false} DrainBlocks(items: seq<Message>, pending: nat)
    requires NoError(items)
    requires DoneCount(items) < pending
    ensures Drain(items, pending) == DrainResult(DataRows(items), Blocked)
  {
    if items != [] {
      var rest := items[1..];
      assert NoError(rest) by {
        assert forall i :: 0 <= i < |rest| ==> rest[i] == items[i + 1];
      }
      var p := if items[0].Done? then pending - 1 else pending;
      DrainBlocks(rest, p);
    }
  }
}
