/** The time windows of `/api/anomalies`: the recent window ending at the
    latest timestamp and the baseline window before it. */
module AnomalyWindows {
  import opened Wrappers
  import opened Seqs
  import opened Records

  /** The rows whose endpoint is not NULL. */
  function Named(rs: seq<Record>): (ns: seq<Record>)
    ensures forall x :: multiset(ns)[x] == if x.endpoint.Some? then multiset(rs)[x] else 0
    ensures forall x :: x in ns ==> x.endpoint.Some?
  {
    Where(rs, (x: Record) => x.endpoint.Some?)
  }

  /** Stamped at or after `start`; an undated row compares false. */
  predicate From(x: Record, start: int) {
    x.timestamp.Some? && x.timestamp.value >= start
  }

  /** Stamped strictly before `end`; an undated row compares false. */
  predicate Before(x: Record, end: int) {
    x.timestamp.Some? && x.timestamp.value < end
  }

  /** The recent rows and the baseline rows, split at `recentStart`. */
  datatype Split = Split(latest: int, recentStart: int, baselineStart: int, recent: seq<Record>, baseline: seq<Record>)

  /** Some row of `rows` is stamped in `[baselineStart, recentStart)`. */
  ghost predicate SpanOccupied(rows: seq<Record>, baselineStart: int, recentStart: int) {
    exists x :: x in rows && From(x, baselineStart) && Before(x, recentStart)
  }

  /** The split of `rows` at `latest`: the recent rows are those stamped
      within `minutes` minutes of `latest`; the baseline rows are those
      stamped in the `lookbackHours` hours before `latest` but before the
      recent window, or, when there are none, all rows before the recent
      window. */
  function Partition(rows: seq<Record>, latest: int, minutes: int, lookbackHours: int): (w: Split)
    ensures w.latest == latest
    ensures w.recentStart == latest - minutes * 60
    ensures w.baselineStart == latest - lookbackHours * 3600
    ensures forall x ::
      multiset(w.recent)[x] == if From(x, w.recentStart) then multiset(rows)[x] else 0
    ensures SpanOccupied(rows, w.baselineStart, w.recentStart) ==> forall x ::
      multiset(w.baseline)[x] == if From(x, w.baselineStart) && Before(x, w.recentStart) then multiset(rows)[x] else 0
    ensures !SpanOccupied(rows, w.baselineStart, w.recentStart) ==> forall x ::
      multiset(w.baseline)[x] == if Before(x, w.recentStart) then multiset(rows)[x] else 0
  {
    var recentStart := latest - minutes * 60;
    var baselineStart := latest - lookbackHours * 3600;
    var recent := Where(rows, (x: Record) => From(x, recentStart));
    var span := Where(rows, (x: Record) => From(x, baselineStart) && Before(x, recentStart));
    if span != [] then
      assert span[0] in multiset(span);
      Split(latest, recentStart, baselineStart, recent, span)
    else
      assert !SpanOccupied(rows, baselineStart, recentStart) by {
        forall x | x in rows
          ensures !(From(x, baselineStart) && Before(x, recentStart))
        {
          assert x in multiset(rows);
        }
      }
      Split(latest, recentStart, baselineStart, recent, Where(rows, (x: Record) => Before(x, recentStart)))
  }

  /** `None` when no named row has a valid timestamp (the endpoint answers no
      anomalies); otherwise the named rows split at the newest timestamp of a
      named row. */
  function SplitWindows(rs: seq<Record>, minutes: int, lookbackHours: int): (w: Option<Split>)
    ensures w.None? <==> MaxTimestamp(Named(rs)).None?
    ensures w.Some? ==> w.value == Partition(Named(rs), MaxTimestamp(Named(rs)).value, minutes, lookbackHours)
    ensures w.None? <==> forall x :: x in Named(rs) ==> x.timestamp.None?
    ensures w.Some? ==> exists x :: x in Named(rs) && x.timestamp == Some(w.value.latest)
    ensures w.Some? ==> forall x :: x in Named(rs) && x.timestamp.Some? ==> x.timestamp.value <= w.value.latest
  {
    match MaxTimestamp(Named(rs))
    case None => None
    case Some(latest) => Some(Partition(Named(rs), latest, minutes, lookbackHours))
  }

  /** No row is both recent and baseline. */
  lemma {:induction false} WindowsDisjoint(rs: seq<Record>, minutes: int, lookbackHours: int, x: Record)
    requires SplitWindows(rs, minutes, lookbackHours).Some?
    requires x in SplitWindows(rs, minutes, lookbackHours).value.recent
    ensures x !in SplitWindows(rs, minutes, lookbackHours).value.baseline
  {
    var w := SplitWindows(rs, minutes, lookbackHours).value;
    assert x in multiset(w.recent);
    assert From(x, w.recentStart);
    assert x in w.baseline ==> x in multiset(w.baseline);
  }

  /** The baseline is empty only when no named row is stamped before the
      recent window: the fallback finds a baseline whenever one exists. */
  lemma {:induction false} BaselineFallback(rs: seq<Record>, minutes: int, lookbackHours: int, x: Record)
    requires SplitWindows(rs, minutes, lookbackHours).Some?
    requires x in Named(rs) && Before(x, SplitWindows(rs, minutes, lookbackHours).value.recentStart)
    ensures SplitWindows(rs, minutes, lookbackHours).value.baseline != []
  {
    var w := SplitWindows(rs, minutes, lookbackHours).value;
    assert x in multiset(Named(rs));
    if SpanOccupied(Named(rs), w.baselineStart, w.recentStart) {
      var y :| y in Named(rs) && From(y, w.baselineStart) && Before(y, w.recentStart);
      assert y in multiset(Named(rs));
      assert y in multiset(w.baseline);
    } else {
      assert x in multiset(w.baseline);
    }
  }

  /** A non-negative recent window always holds the newest row. */
  lemma {:induction false} RecentHoldsLatest(rs: seq<Record>, minutes: int, lookbackHours: int)
    requires minutes >= 0
    requires SplitWindows(rs, minutes, lookbackHours).Some?
    ensures SplitWindows(rs, minutes, lookbackHours).value.recent != []
  {
    var w := SplitWindows(rs, minutes, lookbackHours).value;
    var named := Named(rs);
    var i :| 0 <= i < |named| && named[i].timestamp == MaxTimestamp(named);
    assert named[i] in multiset(named);
    assert named[i] in multiset(w.recent);
  }

  /** A negative recent window starts after the newest row and holds nothing. */
  lemma {:induction false} NegativeWindowIsEmpty(rs: seq<Record>, minutes: int, lookbackHours: int)
    requires minutes < 0
    requires SplitWindows(rs, minutes, lookbackHours).Some?
    ensures SplitWindows(rs, minutes, lookbackHours).value.recent == []
  {
    var w := SplitWindows(rs, minutes, lookbackHours).value;
    var named := Named(rs);
    forall x | x in named
      ensures !From(x, w.recentStart)
    {
    }
    forall x
      ensures multiset(w.recent)[x] == 0
    {
      if x in multiset(named) {
        assert x in named;
      }
    }
    assert multiset(w.recent) == multiset{};
  }
}
