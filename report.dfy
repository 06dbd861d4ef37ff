/**
 * The fetch metrics report printed at the end of a run: one line per repository that
 * finished, in `sorted` order of the repository names, with the pages and rows counted
 * and the reason the fetch stopped.
 */
module Report {
  import opened Records

  /** Python's `<` on `str`: code point by code point, a proper prefix first. */
  predicate Below(a: string, b: string)
    decreases |a|
  {
    |b| > 0 && (|a| == 0 || a[0] < b[0] || (a[0] == b[0] && Below(a[1..], b[1..])))
  }

  lemma {:induction false} BelowIrreflexive(a: string)
    ensures !Below(a, a)
    decreases |a|
  {
    if |a| > 0 {
      BelowIrreflexive(a[1..]);
    }
  }

  lemma {:induction false} BelowTransitive(a: string, b: string, c: string)
    requires Below(a, b) && Below(b, c)
    ensures Below(a, c)
    decreases |a|
  {
    if |a| > 0 && a[0] == b[0] && b[0] == c[0] {
      BelowTransitive(a[1..], b[1..], c[1..]);
    }
  }

  /** Any two different names are ordered one way or the other. */
  lemma {:induction false} BelowTotal(a: string, b: string)
    ensures a == b || Below(a, b) || Below(b, a)
    decreases |a|
  {
    if |a| > 0 && |b| > 0 && a[0] == b[0] {
      BelowTotal(a[1..], b[1..]);
      if a[1..] == b[1..] {
        assert a == [a[0]] + a[1..] && b == [b[0]] + b[1..];
      }
    }
  }

  predicate StrictlySorted(s: seq<string>)
  {
    forall i, j :: 0 <= i < j < |s| ==> Below(s[i], s[j])
  }

  /** A name put into its place in a sorted list of other names. */
  function Insert(s: seq<string>, k: string): (r: seq<string>)
    requires StrictlySorted(s) && k !in s
    ensures |r| == |s| + 1
    ensures forall x :: x in r <==> x in s || x == k
    ensures StrictlySorted(r)
  {
    if s == [] then [k]
    else
      BelowTotal(k, s[0]);
      if Below(k, s[0]) then
        assert forall j :: 0 <= j < |s| ==> Below(k, s[j]) by {
          forall j | 0 <= j < |s| ensures Below(k, s[j]) {
            if j > 0 { BelowTransitive(k, s[0], s[j]); }
          }
        }
        [k] + s
      else
        var rest := Insert(s[1..], k);
        assert forall x :: x in rest ==> Below(s[0], x);
        [s[0]] + rest
  }

  /** `sorted(metrics.keys())`: every key once, in increasing order. */
  method SortedKeys(m: map<string, WorkerMetrics>) returns (keys: seq<string>)
    ensures |keys| == |m.Keys|
    ensures forall k :: k in keys <==> k in m
    ensures StrictlySorted(keys)
  {
    keys := [];
    var rest := m.Keys;
    while rest != {}
      invariant rest <= m.Keys
      invariant StrictlySorted(keys)
      invariant forall k :: k in keys <==> k in m && k !in rest
      invariant |keys| + |rest| == |m.Keys|
      decreases |rest|
    {
      var k :| k in rest;
      keys := Insert(keys, k);
      rest := rest - {k};
    }
  }

  /** One printed line: `{repo}: pages={pages} yielded={yielded} stop={reason}`. */
  datatype ReportLine = ReportLine(repo: string, pages: nat, yielded: nat, stop: string)

  /** The stop reason as printed: 1 is the watermark, anything else counts as exhausted. */
  function StopLabel(stopReasonWatermark: nat): (shown: string)
    ensures shown == "watermark" <==> stopReasonWatermark == 1
    ensures shown == "exhausted" <==> stopReasonWatermark != 1
  {
    if stopReasonWatermark == 1 then "watermark" else "exhausted"
  }

  function LineOf(repo: string, m: WorkerMetrics): ReportLine
  {
    ReportLine(repo, m.pages, m.yielded, StopLabel(m.stopReasonWatermark))
  }

  /** The report loop: one line for every repository in the metrics, none twice, in
      sorted order, each showing that repository's own metrics. */
  method MetricsReport(m: map<string, WorkerMetrics>) returns (lines: seq<ReportLine>)
    ensures |lines| == |m.Keys|
    ensures forall i :: 0 <= i < |lines| ==> lines[i].repo in m && lines[i] == LineOf(lines[i].repo, m[lines[i].repo])
    ensures forall i, j :: 0 <= i < j < |lines| ==> Below(lines[i].repo, lines[j].repo)
    ensures forall k :: k in m ==> exists i :: 0 <= i < |lines| && lines[i].repo == k
  {
    var keys := SortedKeys(m);
    assert forall i :: 0 <= i < |keys| ==> keys[i] in m;
    lines := [];
    for n := 0 to |keys|
      invariant |lines| == n
      invariant forall i :: 0 <= i < n ==> lines[i] == LineOf(keys[i], m[keys[i]])
    {
      lines := lines + [LineOf(keys[n], m[keys[n]])];
    }
    forall i, j | 0 <= i < j < |lines|
      ensures Below(lines[i].repo, lines[j].repo)
    {
      assert lines[i].repo == keys[i] && lines[j].repo == keys[j];
    }
    forall k | k in m
      ensures exists i :: 0 <= i < |lines| && lines[i].repo == k
    {
      assert k in keys;
      var i :| 0 <= i < |keys| && keys[i] == k;
      assert lines[i].repo == k;
    }
  }
}
