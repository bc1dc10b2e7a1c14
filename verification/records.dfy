/** One row of the `api_logs` table and the equality filters the dashboard
    applies to it. */
module Records {
  import opened Wrappers
  import opened Seqs

  /** A log row. `timestamp` is in whole seconds since the epoch and is `None`
      when the stored text does not parse as a date-time; `endpoint` and
      `region` may be NULL; `verb` is the HTTP method; `status` is the stored text of the status code;
      `responseTime` (milliseconds) may be NULL. */
  datatype Record = Record(
    timestamp: Option<int>,
    endpoint: Option<string>,
    verb: string,
    region: Option<string>,
    client: string,
    status: string,
    responseTime: Option<real>)

  /** The optional `region`, `status`, `method` (`verb`) and `client` query parameters;
      the empty string (an absent or falsy parameter) imposes no constraint. */
  datatype Filter = Filter(region: string, status: string, verb: string, client: string)

  const NoFilter := Filter("", "", "", "")

  /** True when at least one filter is set, so that the query carries `?` parameters. */
  predicate Active(f: Filter) {
    f.region != "" || f.status != "" || f.verb != "" || f.client != ""
  }

  /** The `WHERE 1=1 AND ...` clause: every supplied filter must hold.
      A NULL region equals no region. */
  predicate Matches(f: Filter, r: Record) {
    && (f.region != "" ==> r.region == Some(f.region))
    && (f.status != "" ==> r.status == f.status)
    && (f.verb != "" ==> r.verb == f.verb)
    && (f.client != "" ==> r.client == f.client)
  }

  /** The rows a filtered query sees, in table order. */
  function Select(rs: seq<Record>, f: Filter): (sel: seq<Record>)
    ensures forall x :: multiset(sel)[x] == if Matches(f, x) then multiset(rs)[x] else 0
  {
    Where(rs, (x: Record) => Matches(f, x))
  }

  /** Without filters the query sees every row. */
  lemma {:induction false} SelectNoFilter(rs: seq<Record>)
    ensures Select(rs, NoFilter) == rs
  {
    if rs != [] {
      SelectNoFilter(rs[1..]);
      assert rs == [rs[0]] + rs[1..];
    }
  }

  /** A filter set is the conjunction of its single-column filters: selecting
      by the region alone and then by the rest is selecting by all of them. */
  lemma {:induction false} SelectConjunction(rs: seq<Record>, f: Filter)
    ensures Select(Select(rs, Filter(f.region, "", "", "")), Filter("", f.status, f.verb, f.client)) == Select(rs, f)
  {
    if rs != [] {
      var g := Filter(f.region, "", "", "");
      var h := Filter("", f.status, f.verb, f.client);
      SelectConjunction(rs[1..], f);
      SelectCons(rs[0], rs[1..], f);
      SelectCons(rs[0], rs[1..], g);
      if Matches(g, rs[0]) {
        SelectCons(rs[0], Select(rs[1..], g), h);
      }
    }
  }

  lemma SelectCons(x: Record, rs: seq<Record>, f: Filter)
    ensures Select([x] + rs, f) == if Matches(f, x) then [x] + Select(rs, f) else Select(rs, f)
  {
    assert ([x] + rs)[1..] == rs;
  }

  /** The hour of day (0..23, UTC) of an epoch-second timestamp; Dafny's
      division by a positive divisor floors, as date-time arithmetic does. */
  function HourOfDay(ts: int): (h: int)
    ensures 0 <= h < 24
  {
    (ts / 3600) % 24
  }

  /** Moving a timestamp by whole days keeps its hour; moving it by one hour
      advances the hour modulo 24. */
  lemma HourOfDayShift(ts: int, days: int)
    ensures HourOfDay(ts + days * 86400) == HourOfDay(ts)
    ensures HourOfDay(ts + 3600) == (HourOfDay(ts) + 1) % 24
  {
    assert (ts + days * 86400) / 3600 == ts / 3600 + days * 24;
    assert (ts + 3600) / 3600 == ts / 3600 + 1;
  }

  /** The latest valid timestamp (pandas `max()`, skipping NaT); `None` when no
      row has one. */
  function MaxTimestamp(rs: seq<Record>): (t: Option<int>)
    ensures t.None? <==> forall i :: 0 <= i < |rs| ==> rs[i].timestamp.None?
    ensures t.Some? ==> exists i :: 0 <= i < |rs| && rs[i].timestamp == t
    ensures t.Some? ==> forall i :: 0 <= i < |rs| && rs[i].timestamp.Some? ==> rs[i].timestamp.value <= t.value
  {
    if rs == [] then None
    else
      var rest := MaxTimestamp(rs[1..]);
      assert forall i :: 1 <= i < |rs| ==> rs[i] == rs[1..][i - 1];
      match rs[0].timestamp
      case None =>
        if rest.Some? then
          var i :| 0 <= i < |rs[1..]| && rs[1..][i].timestamp == rest;
          assert rs[i + 1].timestamp == rest;
          rest
        else rest
      case Some(t0) =>
        if rest.Some? && rest.value > t0 then
          var i :| 0 <= i < |rs[1..]| && rs[1..][i].timestamp == rest;
          assert rs[i + 1].timestamp == rest;
          rest
        else Some(t0)
  }
}
