/**
 * Timestamps as the loader handles them: Python `datetime` values that are either
 * naive (no UTC offset) or aware (with one), the GitHub "Z" suffix rewrite done before
 * `datetime.fromisoformat`, the conversions to UTC and the `<=` comparison used by the
 * watermark stop rule.
 */
module Timestamps {
  import opened Wrappers

  /** A `datetime`: the wall-clock reading in microseconds and, when the value is
      timezone-aware, its UTC offset in microseconds (`None` means naive). */
  datatype DateTime = DateTime(wall: int, offset: Option<int>)

  /** `datetime.fromisoformat`, a library parser kept uninterpreted:
      `None` stands for the `ValueError` it raises. */
  type IsoParser = string -> Option<DateTime>

  /** What the timestamp operations can raise. */
  datatype TimeError =
    | InvalidIsoFormat(text: string)   // ValueError from fromisoformat
    | NaiveAwareComparison             // TypeError: naive and aware values compared with <=

  predicate IsAware(d: DateTime) { d.offset.Some? }

  predicate IsUtc(d: DateTime) { d.offset == Some(0) }

  /** The instant an aware value denotes, as a UTC wall-clock reading. */
  function Instant(d: DateTime): int
    requires IsAware(d)
  {
    d.wall - d.offset.value
  }

  predicate EndsWithZ(s: string) { |s| > 0 && s[|s| - 1] == 'Z' }

  const UtcOffsetSuffix: string := "+00:00"

  /** The rewrite `parse_github_ts` applies before parsing: a trailing "Z" (RFC 3339
      section 5.6, `time-offset = "Z" / time-numoffset`) becomes the numeric offset "+00:00". */
  function RewriteZ(ts: string): (r: string)
    ensures !EndsWithZ(r)
    ensures EndsWithZ(ts) ==> r == ts[..|ts| - 1] + UtcOffsetSuffix
    ensures !EndsWithZ(ts) ==> r == ts
  {
    if EndsWithZ(ts) then ts[..|ts| - 1] + UtcOffsetSuffix else ts
  }

  /** Rewriting twice is rewriting once: the rewritten text never ends in "Z". */
  lemma {:induction false} RewriteZIdempotent(ts: string)
    ensures RewriteZ(RewriteZ(ts)) == RewriteZ(ts)
  {
  }

  /** "Z" and "+00:00" are the same offset after the rewrite. */
  lemma {:induction false} RewriteZIdentifiesZuluWithZeroOffset(prefix: string)
    ensures RewriteZ(prefix + "Z") == RewriteZ(prefix + UtcOffsetSuffix) == prefix + UtcOffsetSuffix
  {
    assert (prefix + "Z")[..|prefix|] == prefix;
    var z := prefix + UtcOffsetSuffix;
    assert z[|z| - 1] == '0';
  }

  /** `parse_github_ts`: the rewrite, then the library parser. */
  function ParseGithubTs(iso: IsoParser, ts: string): (r: Result<DateTime, TimeError>)
    ensures r.Ok? <==> iso(RewriteZ(ts)).Some?
    ensures r.Ok? ==> r.value == iso(RewriteZ(ts)).value
    ensures r.Err? ==> r.error == InvalidIsoFormat(RewriteZ(ts))
  {
    match iso(RewriteZ(ts))
    case None => Err(InvalidIsoFormat(RewriteZ(ts)))
    case Some(d) => Ok(d)
  }

  /** A timestamp ending in "Z" parses exactly as the same text with "+00:00" does,
      and any other text reaches the parser unchanged. */
  lemma {:induction false} ParseGithubTsZulu(iso: IsoParser, prefix: string, other: string)
    requires !EndsWithZ(other)
    ensures ParseGithubTs(iso, prefix + "Z") == ParseGithubTs(iso, prefix + UtcOffsetSuffix)
    ensures ParseGithubTs(iso, other) ==
              (if iso(other).Some? then Ok(iso(other).value) else Err(InvalidIsoFormat(other)))
  {
    RewriteZIdentifiesZuluWithZeroOffset(prefix);
  }

  /** `dt.replace(tzinfo=timezone.utc)`: a naive value is read as UTC, with no shift. */
  function ReplaceWithUtc(d: DateTime): (r: DateTime)
    ensures IsUtc(r) && r.wall == d.wall
    ensures !IsAware(d) ==> Instant(r) == d.wall
  {
    DateTime(d.wall, Some(0))
  }

  /** `dt.astimezone(timezone.utc)` on an aware value: same instant, offset zero. */
  function AsTimezoneUtc(d: DateTime): (r: DateTime)
    requires IsAware(d)
    ensures IsUtc(r) && Instant(r) == Instant(d)
  {
    DateTime(Instant(d), Some(0))
  }

  /** Python's `a <= b` on datetimes: wall clocks for two naive values, instants for two
      aware ones, and a TypeError when one is naive and the other aware. */
  function LessOrEqual(a: DateTime, b: DateTime): (r: Result<bool, TimeError>)
    ensures r.Err? <==> IsAware(a) != IsAware(b)
    ensures r.Err? ==> r.error == NaiveAwareComparison
    ensures IsAware(a) && IsAware(b) ==> r == Ok(Instant(a) <= Instant(b))
    ensures !IsAware(a) && !IsAware(b) ==> r == Ok(a.wall <= b.wall)
  {
    if !IsAware(a) && !IsAware(b) then Ok(a.wall <= b.wall)
    else if IsAware(a) && IsAware(b) then Ok(Instant(a) <= Instant(b))
    else Err(NaiveAwareComparison)
  }

  /** Converting an aware watermark to UTC changes the outcome of no comparison with it. */
  lemma {:induction false} ComparisonIgnoresOffset(a: DateTime, b: DateTime)
    requires IsAware(b)
    ensures LessOrEqual(a, AsTimezoneUtc(b)) == LessOrEqual(a, b)
  {
  }

  /** An aware timestamp compared with a naive watermark raises, but not once the
      watermark has been tagged as UTC. */
  lemma {:induction false} NaiveWatermarkComparison(a: DateTime, b: DateTime)
    requires IsAware(a) && !IsAware(b)
    ensures LessOrEqual(a, b) == Err(NaiveAwareComparison)
    ensures LessOrEqual(a, ReplaceWithUtc(b)) == Ok(Instant(a) <= b.wall)
  {
  }
}
