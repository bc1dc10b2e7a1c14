/** The filtered summary (`/api/summary`) and the per-metric breakdowns
    (`/api/<metric>`): SQL `COUNT`/`AVG` queries restated as filters and folds
    over the row sequence. */
module Metrics {
  import opened Wrappers
  import opened Seqs
  import opened Groups
  import opened Records
  import opened Stats
  import StatusCodes

  /** Row `x` has a response time (not NULL). */
  predicate Timed(x: Record) {
    x.responseTime.Some?
  }

  /** The non-NULL response times of `rs`, in row order: one per timed row. */
  function ResponseTimes(rs: seq<Record>): (ts: seq<real>)
    ensures |ts| == |Where(rs, Timed)| <= |rs|
    ensures forall i :: 0 <= i < |ts| ==> Where(rs, Timed)[i].responseTime == Some(ts[i])
  {
    if rs == [] then []
    else
      match rs[0].responseTime
      case Some(v) => [v] + ResponseTimes(rs[1..])
      case None => ResponseTimes(rs[1..])
  }

  /** The rows whose status code reads as 400 or more. */
  function Errors(rs: seq<Record>): (es: seq<Record>)
    ensures |es| <= |rs|
    ensures forall x :: x in es ==> StatusCodes.IsError(x.status)
  {
    Where(rs, (x: Record) => StatusCodes.IsError(x.status))
  }

  // ---------------------------------------------------------------- summary

  /** Total rows, error fraction and mean response time of the filtered rows. */
  datatype Summary = Summary(total: nat, errorRate: real, avgResponseTime: real)

  function Summarize(rs: seq<Record>, f: Filter): (s: Summary)
    ensures s.total == |Select(rs, f)|
    ensures 0.0 <= s.errorRate <= 1.0
    ensures s.total > 0 ==> s.errorRate == (|Errors(Select(rs, f))| as real) / (s.total as real)
    ensures s.avgResponseTime == Mean(ResponseTimes(Select(rs, f))).GetOr(0.0)
    ensures s.total == 0 ==> s == Summary(0, 0.0, 0.0)
  {
    var sel := Select(rs, f);
    Summary(|sel|, Fraction(|Errors(sel)|, |sel|), Mean(ResponseTimes(sel)).GetOr(0.0))
  }

  // ------------------------------------------------------ categorical counts

  /** The grouping columns of `/api/endpoint`, `status`, `region`, `methods`
      and `clients`. */
  datatype Dimension = ByEndpoint | ByStatus | ByRegion | ByMethod | ByClient

  /** The value of column `d` in row `r`; NULL is `None`. */
  function KeyOf(r: Record, d: Dimension): Option<string> {
    match d
    case ByEndpoint => r.endpoint
    case ByStatus => Some(r.status)
    case ByRegion => r.region
    case ByMethod => Some(r.verb)
    case ByClient => Some(r.client)
  }

  function KeysAlong(rs: seq<Record>, d: Dimension): (ks: seq<Option<string>>)
    ensures |ks| == |rs|
    ensures forall i :: 0 <= i < |rs| ==> ks[i] == KeyOf(rs[i], d)
  {
    seq(|rs|, i requires 0 <= i < |rs| => KeyOf(rs[i], d))
  }

  /** `SELECT d, COUNT(*) ... GROUP BY d ORDER BY COUNT(*) DESC`: one bucket per
      distinct value of `d` among the filtered rows, counting those rows, by
      count non-increasing (ties in no particular order). */
  function Breakdown(rs: seq<Record>, f: Filter, d: Dimension): (bs: seq<Bucket<Option<string>>>)
    ensures DistinctBy(bs, BucketKey)
    ensures KeysOf(bs, BucketKey) == set k | k in KeysAlong(Select(rs, f), d)
    ensures forall b :: b in bs ==> b.count == multiset(KeysAlong(Select(rs, f), d))[b.key] > 0
    ensures forall i, j :: 0 <= i < j < |bs| ==> bs[i].count >= bs[j].count
    ensures Total(bs) == |Select(rs, f)|
  {
    ByCountDescIsPreorder<Option<string>>();
    var bs := GroupAndSort(KeysAlong(Select(rs, f), d), ByCountDesc);
    assert forall i, j :: 0 <= i < j < |bs| ==> ByCountDesc(bs[i], bs[j]);
    bs
  }

  // ------------------------------------------------------- per-timestamp counts

  /** SQLite's ascending order on the raw timestamp: NULL first. */
  predicate TimeLe(a: Option<int>, b: Option<int>) {
    match a
    case None => true
    case Some(x) => b.Some? && x <= b.value
  }

  predicate ByTimeAsc(a: Bucket<Option<int>>, b: Bucket<Option<int>>) {
    TimeLe(a.key, b.key)
  }

  lemma ByTimeAscIsPreorder()
    ensures TotalPreorder(ByTimeAsc)
  {
  }

  function Timestamps(rs: seq<Record>): (ts: seq<Option<int>>)
    ensures |ts| == |rs|
    ensures forall i :: 0 <= i < |rs| ==> ts[i] == rs[i].timestamp
  {
    seq(|rs|, i requires 0 <= i < |rs| => rs[i].timestamp)
  }

  /** The distinct timestamps of `rs`. */
  ghost function Stamps(rs: seq<Record>): set<Option<int>> {
    set x | x in rs :: x.timestamp
  }

  lemma StampsOfTimestamps(rs: seq<Record>)
    ensures (set k | k in Timestamps(rs)) == Stamps(rs)
  {
    forall k | k in Stamps(rs)
      ensures k in Timestamps(rs)
    {
      var x :| x in rs && x.timestamp == k;
      var i :| 0 <= i < |rs| && rs[i] == x;
      assert Timestamps(rs)[i] == k;
    }
  }

  /** `GROUP BY Timestamp ORDER BY Timestamp ASC` with `COUNT(*)`: one bucket
      per exact timestamp, strictly ascending, counting the rows carrying it. */
  function ByTimestamp(rs: seq<Record>): (bs: seq<Bucket<Option<int>>>)
    ensures forall i, j :: 0 <= i < j < |bs| ==> TimeLe(bs[i].key, bs[j].key) && bs[i].key != bs[j].key
    ensures KeysOf(bs, BucketKey) == Stamps(rs)
    ensures forall b :: b in bs ==> b.count == multiset(Timestamps(rs))[b.key] > 0
    ensures Total(bs) == |rs|
  {
    ByTimeAscIsPreorder();
    StampsOfTimestamps(rs);
    var bs := GroupAndSort(Timestamps(rs), ByTimeAsc);
    forall i, j | 0 <= i < j < |bs|
      ensures TimeLe(bs[i].key, bs[j].key) && bs[i].key != bs[j].key
    {
      assert ByTimeAsc(bs[i], bs[j]);
      assert BucketKey(bs[i]) != BucketKey(bs[j]);
    }
    bs
  }

  /** The rows of one endpoint. */
  function ForEndpoint(rs: seq<Record>, endpoint: string): (es: seq<Record>)
    ensures forall x :: multiset(es)[x] == if x.endpoint == Some(endpoint) then multiset(rs)[x] else 0
  {
    Where(rs, (x: Record) => x.endpoint == Some(endpoint))
  }

  /** The endpoint drilldown: filtered rows of `endpoint`, counted per exact
      timestamp, ascending. */
  function Drilldown(rs: seq<Record>, f: Filter, endpoint: string): (bs: seq<Bucket<Option<int>>>)
    ensures forall i, j :: 0 <= i < j < |bs| ==> TimeLe(bs[i].key, bs[j].key) && bs[i].key != bs[j].key
    ensures KeysOf(bs, BucketKey) == Stamps(ForEndpoint(Select(rs, f), endpoint))
    ensures forall b :: b in bs ==> b.count == multiset(Timestamps(ForEndpoint(Select(rs, f), endpoint)))[b.key] > 0
    ensures Total(bs) == |ForEndpoint(Select(rs, f), endpoint)|
  {
    ByTimestamp(ForEndpoint(Select(rs, f), endpoint))
  }

  // ------------------------------------------------- mean response time series

  /** One point of the response-time chart. */
  datatype TimePoint = TimePoint(at: Option<int>, meanResponseTime: Option<real>)

  function AtTime(rs: seq<Record>, at: Option<int>): seq<Record> {
    Where(rs, (x: Record) => x.timestamp == at)
  }

  function PointTime(p: TimePoint): Option<int> {
    p.at
  }

  /** The chart point of timestamp `at`: the mean of the non-NULL response
      times of the rows stamped `at` (`None` when there are none). */
  function PointAt(rs: seq<Record>, at: Option<int>): (p: TimePoint)
    ensures p.at == at
  {
    TimePoint(at, Mean(ResponseTimes(AtTime(rs, at))))
  }

  /** `SELECT Timestamp, AVG(ResponseTimeMS) ... GROUP BY Timestamp ORDER BY
      Timestamp ASC` over the filtered rows: one point per exact timestamp,
      strictly ascending, with the mean of that timestamp's non-NULL response
      times (`None` when all are NULL). */
  function ResponseTimeSeries(rs: seq<Record>, f: Filter): (ps: seq<TimePoint>)
    ensures forall i, j :: 0 <= i < j < |ps| ==> TimeLe(ps[i].at, ps[j].at) && ps[i].at != ps[j].at
    ensures KeysOf(ps, PointTime) == Stamps(Select(rs, f))
    ensures forall p :: p in ps ==> p == PointAt(Select(rs, f), p.at)
  {
    var sel := Select(rs, f);
    var bs := ByTimestamp(sel);
    var ps := seq(|bs|, i requires 0 <= i < |bs| => PointAt(sel, bs[i].key));
    RelabelKeys(bs, ps);
    ps
  }

  lemma RelabelKeys(bs: seq<Bucket<Option<int>>>, ps: seq<TimePoint>)
    requires |ps| == |bs| && forall i :: 0 <= i < |bs| ==> ps[i].at == bs[i].key
    ensures KeysOf(ps, PointTime) == KeysOf(bs, BucketKey)
  {
    forall k | k in KeysOf(ps, PointTime)
      ensures k in KeysOf(bs, BucketKey)
    {
      var p :| p in ps && PointTime(p) == k;
      var i :| 0 <= i < |ps| && ps[i] == p;
      assert bs[i] in bs;
    }
    forall k | k in KeysOf(bs, BucketKey)
      ensures k in KeysOf(ps, PointTime)
    {
      var b :| b in bs && BucketKey(b) == k;
      var i :| 0 <= i < |bs| && bs[i] == b;
      assert ps[i] in ps;
    }
  }

  // -------------------------------------------------------------- dispatcher

  /** Why a chart came back empty. */
  datatype Failure = UnknownMetric | QueryFailed

  /** The payload of `/api/<metric>`. The endpoint flattens `NoChart` to
      `{"labels": [], "counts": []}`. */
  datatype Chart =
    | Counts(buckets: seq<Bucket<Option<string>>>)
    | TimeCounts(series: seq<Bucket<Option<int>>>)
    | TimeMeans(points: seq<TimePoint>)
    | NoChart(reason: Failure)

  /** The metric names `/api/<metric>` answers. */
  predicate KnownMetric(metric: string) {
    metric in {"endpoint", "status", "response_time", "region", "methods", "clients"}
  }

  /** `/api/<metric>` with every query bound to its filter values: the
      categorical metrics count per column value, `endpoint` with an
      `endpoint` parameter drills down per timestamp, `response_time` charts
      the mean per timestamp, and an unknown metric answers empty. */
  function MetricData(rs: seq<Record>, f: Filter, metric: string, endpoint: string): (c: Chart)
    ensures c.NoChart? <==> !KnownMetric(metric)
    ensures c.NoChart? ==> c.reason == UnknownMetric
    ensures metric == "response_time" ==> c.TimeMeans?
    ensures metric == "endpoint" ==> (c.TimeCounts? <==> endpoint != "")
    ensures metric == "endpoint" && endpoint == "" ==> c == Counts(Breakdown(rs, f, ByEndpoint))
    ensures metric == "endpoint" && endpoint != "" ==> c == TimeCounts(Drilldown(rs, f, endpoint))
    ensures metric == "status" ==> c == Counts(Breakdown(rs, f, ByStatus))
    ensures metric == "response_time" ==> c == TimeMeans(ResponseTimeSeries(rs, f))
    ensures metric == "region" ==> c == Counts(Breakdown(rs, f, ByRegion))
    ensures metric == "methods" ==> c == Counts(Breakdown(rs, f, ByMethod))
    ensures metric == "clients" ==> c == Counts(Breakdown(rs, f, ByClient))
  {
    if metric == "endpoint" then
      if endpoint != "" then TimeCounts(Drilldown(rs, f, endpoint))
      else Counts(Breakdown(rs, f, ByEndpoint))
    else if metric == "status" then Counts(Breakdown(rs, f, ByStatus))
    else if metric == "response_time" then TimeMeans(ResponseTimeSeries(rs, f))
    else if metric == "region" then Counts(Breakdown(rs, f, ByRegion))
    else if metric == "methods" then Counts(Breakdown(rs, f, ByMethod))
    else if metric == "clients" then Counts(Breakdown(rs, f, ByClient))
    else NoChart(UnknownMetric)
  }

  /** `/api/<metric>` as written: the `response_time` query carries the filter
      placeholders but is executed without their values, so it fails (and the
      handler answers empty) exactly when some filter is set. Every other
      answer is the intended one. */
  function MetricDataAsWritten(rs: seq<Record>, f: Filter, metric: string, endpoint: string): (c: Chart)
    ensures c == MetricData(rs, f, metric, endpoint) <==> !(metric == "response_time" && Active(f))
    ensures metric == "response_time" && Active(f) ==> c == NoChart(QueryFailed)
  {
    if metric == "response_time" && Active(f) then NoChart(QueryFailed)
    else MetricData(rs, f, metric, endpoint)
  }

  // ---------------------------------------------------------------- lemmas

  /** The summary total equals the sum of the counts of any breakdown under the
      same filters. */
  lemma SummaryMatchesBreakdown(rs: seq<Record>, f: Filter, d: Dimension)
    ensures Summarize(rs, f).total == Total(Breakdown(rs, f, d))
  {
  }

  /** An unfiltered summary counts every row. */
  lemma SummaryWithoutFilters(rs: seq<Record>)
    ensures Summarize(rs, NoFilter).total == |rs|
  {
    SelectNoFilter(rs);
  }

  /** With a filter set, the `response_time` chart as written is empty although
      the filtered rows it should chart are not. */
  lemma ResponseTimeIgnoresFilters()
    ensures var r := Record(Some(0), Some("/a"), "GET", Some("eu"), "web", "200", Some(5.0));
            var f := Filter("eu", "", "", "");
            && MetricDataAsWritten([r], f, "response_time", "") == NoChart(QueryFailed)
            && ResponseTimeSeries([r], f) != []
  {
    var r := Record(Some(0), Some("/a"), "GET", Some("eu"), "web", "200", Some(5.0));
    var f := Filter("eu", "", "", "");
    assert r in multiset([r]);
    assert r in Select([r], f);
    assert r.timestamp in KeysOf(ResponseTimeSeries([r], f), PointTime);
  }
}
