/** `/api/anomalies`: per-endpoint z-score tests of the recent window against
    the baseline window, for mean response time and for error rate, ranked and
    de-duplicated by endpoint. */
module Anomalies {
  import opened Wrappers
  import opened Seqs
  import opened Groups
  import opened Records
  import opened Stats
  import opened AnomalyWindows
  import Metrics

  /** The query parameters, defaults `60`, `6`, `2.5`, `3` and `20`. */
  datatype Params = Params(minutes: int, lookbackHours: int, threshold: real, minRecentCount: int, limit: int)

  const Defaults := Params(60, 6, 2.5, 3, 20)

  // ------------------------------------------------------------- z-scores

  /** A float quotient: finite, an infinity (non-zero over zero) or NaN (zero
      over zero). */
  datatype Score = Finite(value: real) | Infinite(positive: bool) | Undefined

  function Divide(a: real, b: real): (z: Score)
    ensures z.Finite? <==> b != 0.0
    ensures z.Undefined? <==> a == 0.0 && b == 0.0
    ensures z.Infinite? ==> z.positive == (a > 0.0)
    ensures z.Finite? ==> z.value * b == a
  {
    if b != 0.0 then Finite(a / b)
    else if a == 0.0 then Undefined
    else Infinite(a > 0.0)
  }

  /** `z.abs() >= t`; NaN compares false. */
  predicate AbsAtLeast(z: Score, t: real) {
    match z
    case Finite(v) => v >= t || -v >= t
    case Infinite(_) => true
    case Undefined => false
  }

  /** `z >= t`; NaN compares false. */
  predicate AtLeast(z: Score, t: real) {
    match z
    case Finite(v) => v >= t
    case Infinite(positive) => positive
    case Undefined => false
  }

  /** Descending sort position: +inf, the finite values, -inf, then NaN last. */
  function Rank(z: Score): int {
    match z
    case Infinite(positive) => if positive then 3 else 1
    case Finite(_) => 2
    case Undefined => 0
  }

  predicate ScoreGe(a: Score, b: Score) {
    if Rank(a) != Rank(b) then Rank(a) > Rank(b)
    else a.Finite? ==> a.value >= b.value
  }

  // ------------------------------------------------------------- anomalies

  datatype Kind = ResponseTime | ErrorRate

  /** One reported anomaly. For a response-time anomaly `recent` and
      `baseline` are mean response times and `spread` the baseline standard
      deviation used; for an error-rate anomaly they are error percentages and
      there is no spread. `recentCount` is the number of recent samples. */
  datatype Anomaly = Anomaly(endpoint: string, kind: Kind, recent: real, baseline: real,
                             spread: Option<real>, z: Score, recentCount: int)

  function EndpointOf(a: Anomaly): string {
    a.endpoint
  }

  /** Sort order "z-score descending". */
  predicate ByZDesc(a: Anomaly, b: Anomaly) {
    ScoreGe(a.z, b.z)
  }

  lemma ByZDescIsPreorder()
    ensures TotalPreorder(ByZDesc)
  {
  }

  // ------------------------------------------------------------ per endpoint

  /** The rows of endpoint `e`. */
  function OfEndpoint(rs: seq<Record>, e: string): (es: seq<Record>)
    ensures forall x :: multiset(es)[x] == if x.endpoint == Some(e) then multiset(rs)[x] else 0
  {
    Where(rs, (x: Record) => x.endpoint == Some(e))
  }

  function EndpointNames(rs: seq<Record>): (ns: seq<string>)
    ensures |ns| == |rs|
    ensures forall i :: 0 <= i < |rs| ==> ns[i] == rs[i].endpoint.GetOr("")
  {
    seq(|rs|, i requires 0 <= i < |rs| => rs[i].endpoint.GetOr(""))
  }

  /** The endpoints scored: each endpoint of the recent rows once. */
  function Candidates(recent: seq<Record>): (es: seq<string>)
    ensures forall i, j :: 0 <= i < j < |es| ==> es[i] != es[j]
    ensures forall e :: e in es <==> e in EndpointNames(recent)
  {
    var groups := CountGroups(EndpointNames(recent));
    var es := Keys(groups);
    forall i, j | 0 <= i < j < |es|
      ensures es[i] != es[j]
    {
      assert BucketKey(groups[i]) != BucketKey(groups[j]);
    }
    forall e | e in EndpointNames(recent)
      ensures e in es
    {
      assert e in KeysOf(groups, BucketKey);
      var b :| b in groups && BucketKey(b) == e;
      var i :| 0 <= i < |groups| && groups[i] == b;
      assert es[i] == e;
    }
    forall e | e in es
      ensures e in EndpointNames(recent)
    {
      var i :| 0 <= i < |es| && es[i] == e;
      assert groups[i] in groups;
      assert e in KeysOf(groups, BucketKey);
    }
    es
  }

  // ---------------------------------------------------- response-time test

  /** Half of a mean, NaN staying NaN. */
  function Half(m: Option<real>): (h: Option<real>)
    ensures h.Some? <==> m.Some?
    ensures h.Some? ==> h.value + h.value == m.value
  {
    match m
    case Some(v) => Some(v * 0.5)
    case None => None
  }

  /** The baseline mean: the mean of the baseline response times, or the recent
      mean when the baseline has none (`fillna(recent_mean)`). */
  function BaselineMean(recentTimes: seq<real>, baseTimes: seq<real>): (m: Option<real>)
    ensures baseTimes != [] ==> m == Mean(baseTimes)
    ensures baseTimes == [] ==> m == Mean(recentTimes)
    ensures m.None? <==> baseTimes == [] && recentTimes == []
    ensures baseTimes != [] ==> m.value * (|baseTimes| as real) == SumReal(baseTimes)
    ensures baseTimes == [] && recentTimes != [] ==> m.value * (|recentTimes| as real) == SumReal(recentTimes)
  {
    if baseTimes != [] then Mean(baseTimes) else Mean(recentTimes)
  }

  /** The spread the response-time score divides by: the baseline sample
      standard deviation, or half the baseline mean when that deviation is
      undefined or zero. */
  function BaselineSpread(baseTimes: seq<real>, baseMean: Option<real>, sqrt: real -> real): (sd: Option<real>)
    ensures sd.None? ==> baseMean.None?
    ensures sd.Some? && sd.value == 0.0 ==> baseMean.Some? && baseMean.value == 0.0
    ensures SampleStd(baseTimes, sqrt).Some? && SampleStd(baseTimes, sqrt).value != 0.0 ==> sd == SampleStd(baseTimes, sqrt)
    ensures SampleStd(baseTimes, sqrt).None? || SampleStd(baseTimes, sqrt).value == 0.0 ==>
      (sd.Some? <==> baseMean.Some?) && (sd.Some? ==> sd.value + sd.value == baseMean.value)
  {
    match SampleStd(baseTimes, sqrt)
    case Some(s) => if s != 0.0 then Some(s) else Half(baseMean)
    case None => Half(baseMean)
  }

  /** The response-time score of endpoint `e` from its recent and baseline
      response times: the recent mean against the baseline mean, in baseline
      spreads. Flagged when at least `minRecentCount` recent response times
      exist and `|z| >= threshold`. */
  function ResponseScore(e: string, recentTimes: seq<real>, baseTimes: seq<real>, p: Params, sqrt: real -> real): (a: Option<Anomaly>)
    ensures a.Some? ==> a.value.endpoint == e && a.value.kind == ResponseTime
    ensures a.Some? ==> a.value.recentCount == |recentTimes| >= p.minRecentCount
    ensures a.Some? ==> Mean(recentTimes) == Some(a.value.recent)
    ensures a.Some? ==> BaselineMean(recentTimes, baseTimes) == Some(a.value.baseline)
    ensures a.Some? && baseTimes != [] ==> Mean(baseTimes) == Some(a.value.baseline)
    ensures a.Some? && baseTimes == [] ==> a.value.baseline == a.value.recent
    ensures a.Some? ==> a.value.spread == BaselineSpread(baseTimes, Some(a.value.baseline), sqrt)
    ensures a.Some? ==> a.value.spread.Some? && AbsAtLeast(a.value.z, p.threshold)
    ensures a.Some? ==> a.value.z == Divide(a.value.recent - a.value.baseline, a.value.spread.value)
    ensures a.None? && |recentTimes| >= p.minRecentCount && recentTimes != [] ==>
      var baseMean := BaselineMean(recentTimes, baseTimes);
      var spread := BaselineSpread(baseTimes, baseMean, sqrt);
      baseMean.None? || spread.None? ||
      !AbsAtLeast(Divide(Mean(recentTimes).value - baseMean.value, spread.value), p.threshold)
  {
    var recentMean := Mean(recentTimes);
    var baseMean := BaselineMean(recentTimes, baseTimes);
    var spread := BaselineSpread(baseTimes, baseMean, sqrt);
    if recentMean.Some? && baseMean.Some? && spread.Some? then
      var z := Divide(recentMean.value - baseMean.value, spread.value);
      if |recentTimes| >= p.minRecentCount && AbsAtLeast(z, p.threshold) then
        Some(Anomaly(e, ResponseTime, recentMean.value, baseMean.value, spread, z, |recentTimes|))
      else None
    else None
  }

  /** The response-time test for endpoint `e` over the response times of its
      recent and baseline rows. */
  function ResponseCheck(e: string, w: Split, p: Params, sqrt: real -> real): (a: Option<Anomaly>)
    ensures a.Some? ==> a.value.endpoint == e && a.value.kind == ResponseTime
    ensures a.Some? ==> a.value.recentCount == |Metrics.ResponseTimes(OfEndpoint(w.recent, e))| >= p.minRecentCount
    ensures a.Some? ==> Mean(Metrics.ResponseTimes(OfEndpoint(w.recent, e))) == Some(a.value.recent)
    ensures a.Some? ==> a.value.spread.Some? && AbsAtLeast(a.value.z, p.threshold)
    ensures var bt := Metrics.ResponseTimes(OfEndpoint(w.baseline, e));
            a.Some? && bt != [] ==> Mean(bt) == Some(a.value.baseline)
    ensures a.Some? && Metrics.ResponseTimes(OfEndpoint(w.baseline, e)) == [] ==> a.value.baseline == a.value.recent
    ensures a.Some? ==> a.value.spread == BaselineSpread(Metrics.ResponseTimes(OfEndpoint(w.baseline, e)), Some(a.value.baseline), sqrt)
    ensures a.Some? ==> a.value.z == Divide(a.value.recent - a.value.baseline, a.value.spread.value)
  {
    var rt := Metrics.ResponseTimes(OfEndpoint(w.recent, e));
    var bt := Metrics.ResponseTimes(OfEndpoint(w.baseline, e));
    var a := ResponseScore(e, rt, bt, p, sqrt);
    if a.Some? then Some(a.value) else None
  }

  /** The response-time test reads the endpoint's recent and baseline
      response times. */
  lemma ResponseCheckIsScore(e: string, w: Split, p: Params, sqrt: real -> real)
    ensures ResponseCheck(e, w, p, sqrt) ==
      ResponseScore(e, Metrics.ResponseTimes(OfEndpoint(w.recent, e)), Metrics.ResponseTimes(OfEndpoint(w.baseline, e)), p, sqrt)
  {
  }

  /** An endpoint with at least `minRecentCount` (and at least one) recent
      response times is flagged for response time exactly when its baseline
      spread exists and its z-score reaches the threshold in absolute value. */
  lemma ResponseCheckFlagged(e: string, w: Split, p: Params, sqrt: real -> real)
    ensures var rt := Metrics.ResponseTimes(OfEndpoint(w.recent, e));
            var bt := Metrics.ResponseTimes(OfEndpoint(w.baseline, e));
            var baseMean := BaselineMean(rt, bt);
            var spread := BaselineSpread(bt, baseMean, sqrt);
            rt != [] && |rt| >= p.minRecentCount ==>
              (ResponseCheck(e, w, p, sqrt).Some? <==>
               spread.Some? && AbsAtLeast(Divide(Mean(rt).value - baseMean.value, spread.value), p.threshold))
  {
    ResponseCheckIsScore(e, w, p, sqrt);
  }

  // -------------------------------------------------------- error-rate test

  /** The floor of the binomial variance. */
  const VarianceFloor: real := 0.000001

  /** The fraction of `rows` whose status is an error (the mean of `is_error`). */
  function ErrorShare(rows: seq<Record>): (r: real)
    ensures 0.0 <= r <= 1.0
    ensures rows == [] ==> r == 0.0
    ensures rows != [] ==> r == (|Metrics.Errors(rows)| as real) / (|rows| as real)
  {
    SelectNoFilter(rows);
    Metrics.Summarize(rows, NoFilter).errorRate
  }

  /** The standard error of a rate `rate` over `n` trials,
      `sqrt(max(rate (1 - rate) / n, 1e-6))`. */
  function BinomialSpread(rate: real, n: nat, sqrt: real -> real): real
    requires n > 0
  {
    var variance := rate * (1.0 - rate) / (n as real);
    sqrt(if variance > VarianceFloor then variance else VarianceFloor)
  }

  /** The error-rate score of endpoint `e`: the recent error fraction against
      the baseline one, in units of `spread`, over `n` recent rows. Raised
      exactly when `n >= minRecentCount` and `z >= threshold`; rates are
      reported in percent. */
  function ErrorScore(e: string, recentRate: real, baseRate: real, spread: real, n: nat, p: Params): (a: Option<Anomaly>)
    ensures a.Some? <==> n >= p.minRecentCount && AtLeast(Divide(recentRate - baseRate, spread), p.threshold)
    ensures a.Some? ==> a.value.endpoint == e && a.value.kind == ErrorRate
    ensures a.Some? ==> a.value.recentCount == n && a.value.spread.None?
    ensures a.Some? ==> a.value.z == Divide(recentRate - baseRate, spread)
    ensures a.Some? ==> a.value.recent == recentRate * 100.0 && a.value.baseline == baseRate * 100.0
  {
    var z := Divide(recentRate - baseRate, spread);
    if n >= p.minRecentCount && AtLeast(z, p.threshold) then
      Some(Anomaly(e, ErrorRate, recentRate * 100.0, baseRate * 100.0, None, z, n))
    else None
  }

  /** The error-rate test for endpoint `e`: the recent error fraction against
      the baseline one (0 without baseline rows), in binomial standard errors
      over the number of recent rows (1 if there are none). */
  function ErrorCheck(e: string, w: Split, p: Params, sqrt: real -> real): (a: Option<Anomaly>)
    ensures a.Some? ==> a.value.endpoint == e && a.value.kind == ErrorRate
    ensures a.Some? ==> a.value.recentCount >= p.minRecentCount && a.value.recentCount >= 1
    ensures a.Some? && OfEndpoint(w.recent, e) != [] ==> a.value.recentCount == |OfEndpoint(w.recent, e)|
    ensures a.Some? ==> AtLeast(a.value.z, p.threshold) && a.value.spread.None?
    ensures a.Some? ==> 0.0 <= a.value.recent <= 100.0 && 0.0 <= a.value.baseline <= 100.0
    ensures a.Some? ==> a.value.recent == ErrorShare(OfEndpoint(w.recent, e)) * 100.0
    ensures a.Some? && OfEndpoint(w.baseline, e) == [] ==> a.value.baseline == 0.0
    ensures a.Some? && OfEndpoint(w.baseline, e) != [] ==> a.value.baseline == ErrorShare(OfEndpoint(w.baseline, e)) * 100.0
  {
    var recentRows := OfEndpoint(w.recent, e);
    var baseRows := OfEndpoint(w.baseline, e);
    var recentRate := ErrorShare(recentRows);
    var baseRate := if baseRows == [] then 0.0 else ErrorShare(baseRows);
    var n := if |recentRows| == 0 then 1 else |recentRows|;
    ErrorScore(e, recentRate, baseRate, BinomialSpread(baseRate, n, sqrt), n, p)
  }

  /** For an endpoint with recent rows, the error-rate test is the score of
      its recent and baseline error shares (0 without baseline rows) over its
      number of recent rows. */
  lemma ErrorCheckIsScore(e: string, w: Split, p: Params, sqrt: real -> real)
    ensures var recentRows := OfEndpoint(w.recent, e);
            var baseRate := if OfEndpoint(w.baseline, e) == [] then 0.0 else ErrorShare(OfEndpoint(w.baseline, e));
            recentRows != [] ==>
              ErrorCheck(e, w, p, sqrt) ==
              ErrorScore(e, ErrorShare(recentRows), baseRate, BinomialSpread(baseRate, |recentRows|, sqrt), |recentRows|, p)
  {
  }

  /** An endpoint with at least `minRecentCount` (and at least one) recent rows
      is flagged for its error rate exactly when its error z-score reaches the
      threshold. */
  lemma ErrorCheckFlagged(e: string, w: Split, p: Params, sqrt: real -> real)
    ensures var recentRows := OfEndpoint(w.recent, e);
            var baseRate := if OfEndpoint(w.baseline, e) == [] then 0.0 else ErrorShare(OfEndpoint(w.baseline, e));
            recentRows != [] && |recentRows| >= p.minRecentCount ==>
              (ErrorCheck(e, w, p, sqrt).Some? <==>
               AtLeast(Divide(ErrorShare(recentRows) - baseRate, BinomialSpread(baseRate, |recentRows|, sqrt)), p.threshold))
  {
    ErrorCheckIsScore(e, w, p, sqrt);
  }

  // ---------------------------------------------------------------- ranking

  /** The test of `kind` for endpoint `e`. */
  function Check(kind: Kind, e: string, w: Split, p: Params, sqrt: real -> real): (a: Option<Anomaly>)
    ensures a.Some? ==> a.value.endpoint == e && a.value.kind == kind
  {
    match kind
    case ResponseTime => ResponseCheck(e, w, p, sqrt)
    case ErrorRate => ErrorCheck(e, w, p, sqrt)
  }

  /** The anomalies `check` finds among `es`, by z-score descending (ties in
      no particular order). */
  function Sweep(es: seq<string>, check: string -> Option<Anomaly>): (found: seq<Anomaly>)
    ensures Sorted(found, ByZDesc)
    ensures multiset(found) == multiset(Collect(es, check))
    ensures forall a :: a in found ==> exists e :: e in es && check(e) == Some(a)
    ensures forall e :: e in es && check(e).Some? ==> check(e).value in found
  {
    var hits := Collect(es, check);
    ByZDescIsPreorder();
    var found := SortBy(hits, ByZDesc);
    assert forall a :: a in found <==> a in hits by {
      forall a
        ensures a in found <==> a in hits
      {
        assert a in found <==> a in multiset(found);
        assert a in hits <==> a in multiset(hits);
      }
    }
    found
  }

  /** The anomalies of one kind over the recent endpoints, by z-score
      descending. */
  function Flagged(kind: Kind, w: Split, p: Params, sqrt: real -> real): (found: seq<Anomaly>)
    ensures Sorted(found, ByZDesc)
    ensures forall a :: a in found ==> a.endpoint in EndpointNames(w.recent) && Check(kind, a.endpoint, w, p, sqrt) == Some(a)
    ensures forall a :: a in found ==> a.kind == kind
    ensures forall e :: e in EndpointNames(w.recent) && Check(kind, e, w, p, sqrt).Some? ==> Check(kind, e, w, p, sqrt).value in found
    ensures DistinctBy(found, EndpointOf)
  {
    var es := Candidates(w.recent);
    var check := (e: string) => Check(kind, e, w, p, sqrt);
    var found := Sweep(es, check);
    CollectDistinct(es, check, EndpointOf);
    PermutationKeepsDistinct(Collect(es, check), found, EndpointOf);
    forall a | a in found
      ensures a.endpoint in EndpointNames(w.recent) && Check(kind, a.endpoint, w, p, sqrt) == Some(a)
    {
      var e :| e in es && check(e) == Some(a);
    }
    found
  }

  /** The output cap: `limit`, but at least one (the loop appends before it
      tests the length). */
  function Bound(limit: int): (n: nat)
    ensures n >= 1 && (limit >= 1 ==> n == limit)
  {
    if limit >= 1 then limit else 1
  }

  /** Response-time anomalies, then error-rate anomalies. */
  function Ranked(w: Split, p: Params, sqrt: real -> real): seq<Anomaly>
  {
    Flagged(ResponseTime, w, p, sqrt) + Flagged(ErrorRate, w, p, sqrt)
  }

  /** The first anomaly per endpoint, at most `Bound(limit)` of them. */
  function Report(ranked: seq<Anomaly>, limit: int): (out: seq<Anomaly>)
    ensures |out| <= Bound(limit)
    ensures DistinctBy(out, EndpointOf)
    ensures forall a :: a in out ==> a in ranked
  {
    var firsts := FirstBy(ranked, EndpointOf, {});
    FirstByKeeps(ranked, EndpointOf, {});
    var out := Take(firsts, Bound(limit));
    assert forall i :: 0 <= i < |out| ==> out[i] == firsts[i];
    out
  }

  /** `/api/anomalies` with `is_error` derived on the windowed rows and
      NaN-or-zero spreads replaced by half the baseline mean: the ranked
      anomalies, the first per endpoint, at most `Bound(limit)` of them. */
  function Detect(rs: seq<Record>, p: Params, sqrt: real -> real): (found: seq<Anomaly>)
    ensures |found| <= Bound(p.limit)
    ensures DistinctBy(found, EndpointOf)
    ensures found != [] ==> SplitWindows(rs, p.minutes, p.lookbackHours).Some?
    ensures found != [] ==> forall a :: a in found ==>
      a.endpoint in EndpointNames(SplitWindows(rs, p.minutes, p.lookbackHours).value.recent) &&
      Check(a.kind, a.endpoint, SplitWindows(rs, p.minutes, p.lookbackHours).value, p, sqrt) == Some(a)
  {
    if rs == [] then []
    else
      match SplitWindows(rs, p.minutes, p.lookbackHours)
      case None => []
      case Some(w) =>
        var found := Report(Ranked(w, p, sqrt), p.limit);
        forall a | a in found
          ensures a.endpoint in EndpointNames(w.recent) && Check(a.kind, a.endpoint, w, p, sqrt) == Some(a)
        {
          assert a in Flagged(ResponseTime, w, p, sqrt) || a in Flagged(ErrorRate, w, p, sqrt);
        }
        found
  }

  lemma TakeOfPrefix<T>(s: seq<T>, rest: seq<T>, n: int)
    requires |s| == n
    ensures Take(s + rest, n) == s
  {
    assert (s + rest)[..n] == s;
  }

  /** The de-duplication loop: walk the ranked list, skip endpoints already
      reported, stop once `limit` entries are out. */
  method Deduplicate(ranked: seq<Anomaly>, limit: int) returns (out: seq<Anomaly>)
    ensures out == Take(FirstBy(ranked, EndpointOf, {}), Bound(limit))
  {
    var seen: set<string> := {};
    out := [];
    var i := 0;
    while i < |ranked|
      invariant 0 <= i <= |ranked|
      invariant FirstBy(ranked, EndpointOf, {}) == out + FirstBy(ranked[i..], EndpointOf, seen)
      invariant |out| < Bound(limit)
    {
      var a := ranked[i];
      FirstByAdvance(ranked, i, EndpointOf, seen, out);
      if a.endpoint !in seen {
        ghost var tail := FirstBy(ranked[i + 1..], EndpointOf, seen + {a.endpoint});
        seen := seen + {a.endpoint};
        out := out + [a];
        if |out| >= limit {
          TakeOfPrefix(out, tail, Bound(limit));
          return;
        }
      }
      i := i + 1;
    }
    assert ranked[i..] == [];
    assert out + [] == out;
  }

  // ------------------------------------------------------------ properties

  /** The order of the report: response-time anomalies before error-rate
      ones, and within a kind by z-score descending. */
  predicate Precedes(a: Anomaly, b: Anomaly) {
    && (a.kind == ErrorRate ==> b.kind == ErrorRate)
    && (a.kind == b.kind ==> ScoreGe(a.z, b.z))
  }

  /** Two runs each sorted by z-score, the response-time run first, are in
      report order. */
  lemma ConcatOrder(fr: seq<Anomaly>, fe: seq<Anomaly>)
    requires Sorted(fr, ByZDesc) && Sorted(fe, ByZDesc)
    requires forall a :: a in fr ==> a.kind == ResponseTime
    requires forall a :: a in fe ==> a.kind == ErrorRate
    ensures Pairwise(fr + fe, Precedes)
  {
    var r := fr + fe;
    forall i, j | 0 <= i < j < |r|
      ensures Precedes(r[i], r[j])
    {
      if j < |fr| {
        assert r[i] == fr[i] && r[j] == fr[j];
        assert ByZDesc(fr[i], fr[j]);
      } else if |fr| <= i {
        assert r[i] == fe[i - |fr|] && r[j] == fe[j - |fr|];
        assert ByZDesc(fe[i - |fr|], fe[j - |fr|]);
      } else {
        assert r[i] in fr && r[j] in fe;
      }
    }
  }

  lemma PairwisePrefix<T>(s: seq<T>, t: seq<T>, rel: (T, T) -> bool)
    requires Pairwise(s, rel) && t <= s
    ensures Pairwise(t, rel)
  {
    assert forall i :: 0 <= i < |t| ==> t[i] == s[i];
  }

  /** A report keeps the order of the ranked list. */
  lemma ReportOrder(ranked: seq<Anomaly>, limit: int, rel: (Anomaly, Anomaly) -> bool)
    requires Pairwise(ranked, rel)
    ensures Pairwise(Report(ranked, limit), rel)
  {
    FirstByPairwise(ranked, EndpointOf, {}, rel);
    var firsts := FirstBy(ranked, EndpointOf, {});
    PairwisePrefix(firsts, Take(firsts, Bound(limit)), rel);
  }

  /** In a report, the entry for an endpoint is its earliest ranked one. */
  lemma ReportEarliest(ranked: seq<Anomaly>, limit: int, a: Anomaly, j: int)
    requires a in Report(ranked, limit)
    requires 0 <= j < |ranked| && ranked[j].endpoint == a.endpoint
    ensures a in ranked[..j + 1]
  {
    var firsts := FirstBy(ranked, EndpointOf, {});
    assert Report(ranked, limit) <= firsts;
    FirstByKeepsEarliest(ranked, EndpointOf, {}, a, j);
  }

  /** A report shorter than its cap names every endpoint of the ranked list. */
  lemma ReportCovers(ranked: seq<Anomaly>, limit: int, b: Anomaly)
    requires b in ranked && |Report(ranked, limit)| < Bound(limit)
    ensures exists a :: a in Report(ranked, limit) && a.endpoint == b.endpoint
  {
    FirstByKeeps(ranked, EndpointOf, {});
    var firsts := FirstBy(ranked, EndpointOf, {});
    assert Report(ranked, limit) == firsts;
    assert b.endpoint in KeysOf(firsts, EndpointOf);
  }

  lemma DetectIsReport(rs: seq<Record>, p: Params, sqrt: real -> real)
    requires rs != [] && SplitWindows(rs, p.minutes, p.lookbackHours).Some?
    ensures Detect(rs, p, sqrt) == Report(Ranked(SplitWindows(rs, p.minutes, p.lookbackHours).value, p, sqrt), p.limit)
  {
  }

  /** The reported anomalies come response time first, each kind by z-score
      descending. */
  lemma DetectOrder(rs: seq<Record>, p: Params, sqrt: real -> real)
    ensures Pairwise(Detect(rs, p, sqrt), Precedes)
  {
    if rs != [] && SplitWindows(rs, p.minutes, p.lookbackHours).Some? {
      var w := SplitWindows(rs, p.minutes, p.lookbackHours).value;
      ConcatOrder(Flagged(ResponseTime, w, p, sqrt), Flagged(ErrorRate, w, p, sqrt));
      ReportOrder(Ranked(w, p, sqrt), p.limit, Precedes);
      DetectIsReport(rs, p, sqrt);
    }
  }

  /** In a report over two runs, an endpoint present in the first run is
      reported with an entry of the first run. */
  lemma ReportPrefersFirst(fr: seq<Anomaly>, fe: seq<Anomaly>, limit: int, a: Anomaly, b: Anomaly)
    requires a in Report(fr + fe, limit)
    requires b in fr && b.endpoint == a.endpoint
    ensures a in fr
  {
    var ranked := fr + fe;
    var j :| 0 <= j < |fr| && fr[j] == b;
    assert ranked[j] == b;
    ReportEarliest(ranked, limit, a, j);
    assert ranked[..j + 1] == fr[..j + 1];
  }

  /** An endpoint is reported for its error rate only when its response time
      is not anomalous: the response-time anomaly, listed first, wins. */
  lemma ResponseTimeWins(rs: seq<Record>, p: Params, sqrt: real -> real, a: Anomaly)
    requires a in Detect(rs, p, sqrt) && a.kind == ErrorRate
    ensures ResponseCheck(a.endpoint, SplitWindows(rs, p.minutes, p.lookbackHours).value, p, sqrt).None?
  {
    var w := SplitWindows(rs, p.minutes, p.lookbackHours).value;
    var fr := Flagged(ResponseTime, w, p, sqrt);
    var fe := Flagged(ErrorRate, w, p, sqrt);
    DetectIsReport(rs, p, sqrt);
    var b := Check(ResponseTime, a.endpoint, w, p, sqrt);
    if b.Some? {
      assert a.endpoint in EndpointNames(w.recent);
      ReportPrefersFirst(fr, fe, p.limit, a, b.value);
      assert false;
    }
  }

  /** When the report is shorter than the cap, every endpoint with an anomaly
      of either kind is in it. */
  lemma DetectComplete(rs: seq<Record>, p: Params, sqrt: real -> real, kind: Kind, e: string)
    requires rs != [] && SplitWindows(rs, p.minutes, p.lookbackHours).Some?
    requires |Detect(rs, p, sqrt)| < Bound(p.limit)
    requires e in EndpointNames(SplitWindows(rs, p.minutes, p.lookbackHours).value.recent)
    requires Check(kind, e, SplitWindows(rs, p.minutes, p.lookbackHours).value, p, sqrt).Some?
    ensures exists a :: a in Detect(rs, p, sqrt) && a.endpoint == e
  {
    var w := SplitWindows(rs, p.minutes, p.lookbackHours).value;
    var ranked := Ranked(w, p, sqrt);
    var b := Check(kind, e, w, p, sqrt).value;
    assert b in Flagged(kind, w, p, sqrt);
    assert b in ranked;
    DetectIsReport(rs, p, sqrt);
    ReportCovers(ranked, p.limit, b);
  }

  // ------------------------------------------------------- score direction

  lemma QuotientSign(a: real, b: real)
    requires b > 0.0
    ensures a / b > 0.0 <==> a > 0.0
    ensures a / b < 0.0 <==> a < 0.0
  {
    assert (a / b) * b == a;
  }

  /** A score reaching a positive threshold over a positive spread puts the
      recent value above the baseline, also in percent. */
  lemma AboveThreshold(recent: real, baseline: real, sd: real, threshold: real)
    requires sd > 0.0 && threshold > 0.0
    requires AtLeast(Divide(recent - baseline, sd), threshold)
    ensures recent * 100.0 > baseline * 100.0
  {
    QuotientSign(recent - baseline, sd);
  }

  /** With a sign-keeping square root the binomial spread is positive: the floor
      keeps the variance away from zero. */
  lemma BinomialSpreadPositive(rate: real, n: nat, sqrt: real -> real)
    requires KeepsSign(sqrt) && n > 0
    ensures BinomialSpread(rate, n, sqrt) > 0.0
  {
  }

  /** An error-rate anomaly above a positive threshold over a positive spread
      means the recent error rate exceeds the baseline one. */
  lemma ErrorAnomalyMeansMoreErrors(e: string, recentRate: real, baseRate: real, spread: real, n: nat, p: Params)
    requires spread > 0.0 && p.threshold > 0.0
    ensures var a := ErrorScore(e, recentRate, baseRate, spread, n, p);
            a.Some? ==> a.value.recent > a.value.baseline
  {
    if ErrorScore(e, recentRate, baseRate, spread, n, p).Some? {
      AboveThreshold(recentRate, baseRate, spread, p.threshold);
    }
  }

  /** An endpoint flagged for its error rate above a positive threshold has a
      higher recent error rate than baseline one. */
  lemma ErrorCheckMeansMoreErrors(e: string, w: Split, p: Params, sqrt: real -> real)
    requires KeepsSign(sqrt) && p.threshold > 0.0
    ensures var a := ErrorCheck(e, w, p, sqrt);
            a.Some? ==> a.value.recent > a.value.baseline
  {
    var recentRows := OfEndpoint(w.recent, e);
    var baseRows := OfEndpoint(w.baseline, e);
    var recentRate := ErrorShare(recentRows);
    var baseRate := if baseRows == [] then 0.0 else ErrorShare(baseRows);
    var n := if |recentRows| == 0 then 1 else |recentRows|;
    BinomialSpreadPositive(baseRate, n, sqrt);
    ErrorAnomalyMeansMoreErrors(e, recentRate, baseRate, BinomialSpread(baseRate, n, sqrt), n, p);
  }

  /** With a sign-keeping square root and a positive baseline mean the spread is
      positive: the half-mean fallback replaces an undefined or zero
      deviation. */
  lemma BaselineSpreadPositive(baseTimes: seq<real>, baseMean: Option<real>, sqrt: real -> real)
    requires KeepsSign(sqrt) && baseMean.Some? && baseMean.value > 0.0
    ensures BaselineSpread(baseTimes, baseMean, sqrt).Some?
    ensures BaselineSpread(baseTimes, baseMean, sqrt).value > 0.0
  {
    if |baseTimes| >= 2 {
      assert SampleVariance(baseTimes) >= 0.0;
    }
  }

  /** With a positive baseline mean a response-time score is finite and its
      sign says whether the endpoint got slower or faster. */
  lemma ResponseScoreDirection(e: string, recentTimes: seq<real>, baseTimes: seq<real>, p: Params, sqrt: real -> real)
    requires KeepsSign(sqrt)
    ensures var a := ResponseScore(e, recentTimes, baseTimes, p, sqrt);
            a.Some? && a.value.baseline > 0.0 ==>
              a.value.z.Finite? && (a.value.z.value > 0.0 <==> a.value.recent > a.value.baseline)
  {
    var r := ResponseScore(e, recentTimes, baseTimes, p, sqrt);
    if r.Some? && r.value.baseline > 0.0 {
      var a := r.value;
      BaselineSpreadPositive(baseTimes, Some(a.baseline), sqrt);
      QuotientSign(a.recent - a.baseline, a.spread.value);
    }
  }

  /** An endpoint with no baseline response times is measured against its own
      recent mean, so it never has a response-time anomaly above a positive
      threshold. */
  lemma NoBaselineNoResponseAnomaly(e: string, recentTimes: seq<real>, p: Params, sqrt: real -> real)
    requires p.threshold > 0.0
    ensures ResponseScore(e, recentTimes, [], p, sqrt).None?
  {
  }

  /** An endpoint of the recent window with no baseline rows has no
      response-time anomaly above a positive threshold. */
  lemma NewEndpointNoResponseAnomaly(e: string, w: Split, p: Params, sqrt: real -> real)
    requires p.threshold > 0.0
    requires Metrics.ResponseTimes(OfEndpoint(w.baseline, e)) == []
    ensures ResponseCheck(e, w, p, sqrt).None?
  {
    NoBaselineNoResponseAnomaly(e, Metrics.ResponseTimes(OfEndpoint(w.recent, e)), p, sqrt);
  }

  // ---------------------------------------------------------- as written

  /** How the handler as written fails once a named row has a timestamp. */
  datatype Crash =
    | ReplaceByValueError
      // `Series.replace(0, <Series>)` rejects a Series value on a non-empty frame
    | MissingIsErrorColumn
      // `is_error` is added to the frame after the window copies were taken

  /** The handler as written: no anomalies without a timestamped named row;
      otherwise the spread fallback raises when some endpoint was recent, and
      the error-rate grouping raises on the missing column when none was. */
  function DetectAsWritten(rs: seq<Record>, p: Params): (r: Result<seq<Anomaly>, Crash>)
    ensures r.Success? ==> r.value == []
    ensures r.Success? <==> SplitWindows(rs, p.minutes, p.lookbackHours).None?
    ensures r.Failure? ==> (r.error == MissingIsErrorColumn <==> SplitWindows(rs, p.minutes, p.lookbackHours).value.recent == [])
  {
    if rs == [] then Success([])
    else
      match SplitWindows(rs, p.minutes, p.lookbackHours)
      case None => Success([])
      case Some(w) =>
        if w.recent != [] then Failure(ReplaceByValueError) else Failure(MissingIsErrorColumn)
  }

  /** The handler as written answers like the intended detector exactly when
      there is nothing to split into windows; otherwise it fails. */
  lemma AsWrittenAgreesOnlyWithoutWindows(rs: seq<Record>, p: Params, sqrt: real -> real)
    ensures DetectAsWritten(rs, p) == Success(Detect(rs, p, sqrt)) <==>
      SplitWindows(rs, p.minutes, p.lookbackHours).None?
  {
  }

  /** Every anomaly the intended detector reports is lost to a crash as written. */
  lemma AsWrittenLosesAnomalies(rs: seq<Record>, p: Params, sqrt: real -> real)
    requires Detect(rs, p, sqrt) != []
    ensures DetectAsWritten(rs, p).Failure?
  {
  }

  /** One timestamped request under the default parameters already crashes
      the handler as written in the spread fallback. */
  lemma OneRequestCrashes()
    ensures DetectAsWritten([Record(Some(0), Some("/a"), "GET", Some("eu"), "web", "500", Some(5.0))], Defaults)
      == Failure(ReplaceByValueError)
  {
    var rs := [Record(Some(0), Some("/a"), "GET", Some("eu"), "web", "500", Some(5.0))];
    assert rs[0].timestamp.Some? && rs[0] in multiset(Named(rs));
    assert Named(rs)[0].timestamp.Some?;
    RecentHoldsLatest(rs, 60, 6);
  }

  /** With a negative window nothing is recent, and the handler as written
      fails on the missing `is_error` column instead. */
  lemma NegativeWindowCrashes()
    ensures DetectAsWritten([Record(Some(0), Some("/a"), "GET", Some("eu"), "web", "500", Some(5.0))], Defaults.(minutes := -1))
      == Failure(MissingIsErrorColumn)
  {
    var rs := [Record(Some(0), Some("/a"), "GET", Some("eu"), "web", "500", Some(5.0))];
    assert rs[0].timestamp.Some? && rs[0] in multiset(Named(rs));
    assert Named(rs)[0].timestamp.Some?;
    NegativeWindowIsEmpty(rs, -1, 6);
  }
}
