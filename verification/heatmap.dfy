/** `/api/heatmap`: request counts per region and hour of day over a trailing
    window, for the busiest regions. */
module HeatmapBuilder {
  import opened Wrappers
  import opened Seqs
  import opened Groups
  import opened Records

  /** The response: region labels, the hour axis `0..23`, one 24-wide row of
      counts per region and each row's total. */
  datatype Heatmap = Heatmap(regions: seq<string>, hours: seq<int>, matrix: seq<seq<nat>>, totals: seq<nat>)

  /** The hour axis `[0, 1, ..., 23]`. */
  function HourAxis(): (hs: seq<int>)
    ensures |hs| == 24 && forall h :: 0 <= h < 24 ==> hs[h] == h
    ensures forall h :: h in hs <==> 0 <= h < 24
    ensures forall i, j :: 0 <= i < j < |hs| ==> hs[i] < hs[j]
  {
    var hs := seq(24, h => h);
    forall h | 0 <= h < 24
      ensures h in hs
    {
      assert hs[h] == h;
    }
    assert forall x :: x in hs ==> 0 <= x < 24 by {
      forall x | x in hs
        ensures 0 <= x < 24
      {
        var i :| 0 <= i < |hs| && hs[i] == x;
      }
    }
    hs
  }

  /** A region label: NULL reads as `"Unknown"`. */
  function RegionName(r: Record): string {
    r.region.GetOr("Unknown")
  }

  /** The rows counted: with no valid timestamp every row; otherwise the rows
      stamped no earlier than `hours` hours before the latest timestamp (an
      undated row compares false and is dropped). */
  function HeatWindow(rs: seq<Record>, hours: int): (w: seq<Record>)
    ensures MaxTimestamp(rs).None? ==> w == rs
    ensures MaxTimestamp(rs).Some? ==> forall x :: multiset(w)[x] == if InWindow(x, MaxTimestamp(rs).value, hours) then multiset(rs)[x] else 0
  {
    match MaxTimestamp(rs)
    case None => rs
    case Some(latest) =>
      Where(rs, (x: Record) => InWindow(x, latest, hours))
  }

  /** Row `x` is stamped no earlier than `hours` hours before `latest`. */
  predicate InWindow(x: Record, latest: int, hours: int) {
    x.timestamp.Some? && x.timestamp.value >= latest - hours * 3600
  }

  /** One (region, hour) cell of the grid. */
  datatype Cell = Cell(region: string, hour: int)

  /** The cell a row falls in; an undated row (the fallback case) goes to hour 0. */
  function CellOf(r: Record): (c: Cell)
    ensures 0 <= c.hour < 24
    ensures LabelledAs(r, c.region) && AtHour(r, c.hour)
  {
    Cell(RegionName(r), match r.timestamp case None => 0 case Some(t) => HourOfDay(t))
  }

  function Cells(rs: seq<Record>): (cs: seq<Cell>)
    ensures |cs| == |rs|
    ensures forall i :: 0 <= i < |rs| ==> cs[i] == CellOf(rs[i])
  {
    seq(|rs|, i requires 0 <= i < |rs| => CellOf(rs[i]))
  }

  function CellRegions(cs: seq<Cell>): (ns: seq<string>)
    ensures |ns| == |cs|
    ensures forall i :: 0 <= i < |cs| ==> ns[i] == cs[i].region
  {
    seq(|cs|, i requires 0 <= i < |cs| => cs[i].region)
  }

  function Sum(s: seq<nat>): nat {
    if s == [] then 0 else s[0] + Sum(s[1..])
  }

  /** The number of cells of `region` at each hour of the day, a 24-wide row. */
  ghost function Tallies(cs: seq<Cell>, region: string): (row: seq<nat>)
    ensures |row| == 24
  {
    seq(24, h => multiset(cs)[Cell(region, h)])
  }

  /** A matrix row: the grouped size of each (region, hour) cell, 0 when the
      cell has no group. */
  function Row(agg: seq<Bucket<Cell>>, region: string): (row: seq<nat>)
    ensures |row| == 24
  {
    seq(24, h => CountFor(agg, Cell(region, h)))
  }

  /** The regions of the window ranked by row count, most first (ties in no
      particular order). */
  function Ranking(w: seq<Record>): (bs: seq<Bucket<string>>)
    ensures DistinctBy(bs, BucketKey)
    ensures KeysOf(bs, BucketKey) == set n | n in CellRegions(Cells(w))
    ensures forall b :: b in bs ==> b.count == multiset(CellRegions(Cells(w)))[b.key] > 0
    ensures forall i, j :: 0 <= i < j < |bs| ==> bs[i].count >= bs[j].count
    ensures Total(bs) == |w|
  {
    ByCountDescIsPreorder<string>();
    var bs := GroupAndSort(CellRegions(Cells(w)), ByCountDesc);
    assert forall i, j :: 0 <= i < j < |bs| ==> ByCountDesc(bs[i], bs[j]);
    bs
  }

  /** The grid of the cells `cs` for the ranked regions `ranked`: one row of
      per-hour counts and one total per region, in ranking order. */
  function Grid(cs: seq<Cell>, ranked: seq<Bucket<string>>): (hm: Heatmap)
    requires forall c :: c in cs ==> 0 <= c.hour < 24
    requires forall b :: b in ranked ==> b.count == multiset(CellRegions(cs))[b.key]
    ensures hm.hours == HourAxis()
    ensures hm.regions == Keys(ranked)
    ensures |hm.matrix| == |hm.totals| == |ranked|
    ensures forall i :: 0 <= i < |ranked| ==> hm.matrix[i] == Tallies(cs, ranked[i].key)
    ensures forall i :: 0 <= i < |ranked| ==> hm.totals[i] == Sum(hm.matrix[i]) == ranked[i].count
  {
    var agg := CountGroups(cs);
    var regions := Keys(ranked);
    var matrix := seq(|ranked|, i requires 0 <= i < |ranked| => Row(agg, regions[i]));
    var totals := seq(|ranked|, i requires 0 <= i < |ranked| => Sum(matrix[i]));
    forall i | 0 <= i < |ranked|
      ensures matrix[i] == Tallies(cs, ranked[i].key)
      ensures totals[i] == ranked[i].count
    {
      GridRow(cs, ranked, i);
    }
    Heatmap(regions, HourAxis(), matrix, totals)
  }

  lemma GridRow(cs: seq<Cell>, ranked: seq<Bucket<string>>, i: int)
    requires forall c :: c in cs ==> 0 <= c.hour < 24
    requires forall b :: b in ranked ==> b.count == multiset(CellRegions(cs))[b.key]
    requires 0 <= i < |ranked|
    ensures Row(CountGroups(cs), ranked[i].key) == Tallies(cs, ranked[i].key)
    ensures Sum(Tallies(cs, ranked[i].key)) == ranked[i].count
  {
    assert ranked[i] in ranked;
    RowIsTallies(cs, ranked[i].key);
    RowSum(cs, ranked[i].key);
  }

  /** The head of the ranking: distinct regions with their row counts, most
      first. */
  lemma RankedHead(w: seq<Record>, top: int)
    ensures forall b :: b in Head(Ranking(w), top) ==> b.count == multiset(CellRegions(Cells(w)))[b.key] > 0
    ensures forall i, j :: 0 <= i < j < |Head(Ranking(w), top)| ==>
      Head(Ranking(w), top)[i].key != Head(Ranking(w), top)[j].key
    ensures forall i, j :: 0 <= i < j < |Head(Ranking(w), top)| ==>
      Head(Ranking(w), top)[i].count >= Head(Ranking(w), top)[j].count
  {
    var ranking := Ranking(w);
    var ranked := Head(ranking, top);
    assert forall i :: 0 <= i < |ranked| ==> ranked[i] == ranking[i];
    forall b | b in ranked
      ensures b in ranking
    {
    }
    forall i, j | 0 <= i < j < |ranked|
      ensures ranked[i].key != ranked[j].key
    {
      assert BucketKey(ranking[i]) != BucketKey(ranking[j]);
    }
  }

  /** The heatmap of `rs` for a window of `hours` hours and the `top` busiest
      regions. */
  function BuildHeatmap(rs: seq<Record>, hours: int, top: int): (hm: Heatmap)
    ensures hm.hours == HourAxis()
    ensures |hm.matrix| == |hm.regions| == |hm.totals|
    ensures forall i :: 0 <= i < |hm.matrix| ==> hm.matrix[i] == Tallies(Cells(HeatWindow(rs, hours)), hm.regions[i])
    ensures forall i :: 0 <= i < |hm.totals| ==> hm.totals[i] == Sum(hm.matrix[i])
    ensures forall i :: 0 <= i < |hm.totals| ==>
      hm.totals[i] == multiset(CellRegions(Cells(HeatWindow(rs, hours))))[hm.regions[i]] > 0
    ensures forall i, j :: 0 <= i < j < |hm.regions| ==> hm.regions[i] != hm.regions[j]
    ensures forall i, j :: 0 <= i < j < |hm.totals| ==> hm.totals[i] >= hm.totals[j]
    ensures 0 <= top ==> |hm.regions| <= top
    ensures rs == [] ==> hm.regions == []
  {
    if rs == [] then Heatmap([], HourAxis(), [], [])
    else
      var w := HeatWindow(rs, hours);
      var cs := Cells(w);
      var ranked := Head(Ranking(w), top);
      CellsOnAxis(w);
      RankedHead(w, top);
      var hm := Grid(cs, ranked);
      GridOfRanked(cs, ranked, hm);
      hm
  }

  lemma CellsOnAxis(w: seq<Record>)
    ensures forall c :: c in Cells(w) ==> 0 <= c.hour < 24
  {
  }

  /** The grid of ranked regions carries the ranking's facts over to its
      regions and totals. */
  lemma GridOfRanked(cs: seq<Cell>, ranked: seq<Bucket<string>>, hm: Heatmap)
    requires forall c :: c in cs ==> 0 <= c.hour < 24
    requires forall b :: b in ranked ==> b.count == multiset(CellRegions(cs))[b.key] > 0
    requires forall i, j :: 0 <= i < j < |ranked| ==> ranked[i].key != ranked[j].key
    requires forall i, j :: 0 <= i < j < |ranked| ==> ranked[i].count >= ranked[j].count
    requires hm == Grid(cs, ranked)
    ensures forall i :: 0 <= i < |hm.matrix| ==> hm.matrix[i] == Tallies(cs, hm.regions[i])
    ensures forall i :: 0 <= i < |hm.totals| ==> hm.totals[i] == multiset(CellRegions(cs))[hm.regions[i]] > 0
    ensures forall i, j :: 0 <= i < j < |hm.regions| ==> hm.regions[i] != hm.regions[j]
    ensures forall i, j :: 0 <= i < j < |hm.totals| ==> hm.totals[i] >= hm.totals[j]
  {
    forall i | 0 <= i < |hm.totals|
      ensures hm.totals[i] == multiset(CellRegions(cs))[hm.regions[i]] > 0
    {
      assert ranked[i] in ranked;
    }
  }

  /** Looking a cell up among the grouped sizes finds the number of rows in it. */
  lemma RowIsTallies(cs: seq<Cell>, region: string)
    ensures Row(CountGroups(cs), region) == Tallies(cs, region)
  {
  }

  lemma SumZeros(n: nat)
    ensures Sum(seq(n, h => 0)) == 0
  {
    if n > 0 {
      assert seq(n, h => 0)[1..] == seq(n - 1, h => 0);
      SumZeros(n - 1);
    }
  }

  lemma {:induction false} SumBump(s: seq<nat>, i: int)
    requires 0 <= i < |s|
    ensures Sum(s[i := s[i] + 1]) == Sum(s) + 1
    decreases i
  {
    if i > 0 {
      assert s[i := s[i] + 1][1..] == s[1..][i - 1 := s[i] + 1];
      SumBump(s[1..], i - 1);
    }
  }

  /** A region's row adds up to the region's number of cells when every cell
      lies on the hour axis. */
  lemma {:induction false} RowSum(cs: seq<Cell>, region: string)
    requires forall c :: c in cs ==> 0 <= c.hour < 24
    ensures Sum(Tallies(cs, region)) == multiset(CellRegions(cs))[region]
    decreases |cs|
  {
    if cs == [] {
      assert Tallies(cs, region) == seq(24, h => 0);
      SumZeros(24);
    } else {
      var init, c := cs[..|cs| - 1], cs[|cs| - 1];
      assert cs == init + [c];
      assert CellRegions(cs) == CellRegions(init) + [c.region];
      RowSum(init, region);
      var before := Tallies(init, region);
      TalliesStep(init, c, region);
      if c.region == region {
        SumBump(before, c.hour);
      }
    }
  }

  lemma TalliesStep(init: seq<Cell>, c: Cell, region: string)
    requires 0 <= c.hour < 24
    ensures Tallies(init + [c], region) ==
      if c.region == region then Tallies(init, region)[c.hour := Tallies(init, region)[c.hour] + 1]
      else Tallies(init, region)
  {
    assert multiset(init + [c]) == multiset(init) + multiset{c};
  }

  // ---------------------------------------------------------------- lemmas

  /** The region labels of the rows in the window, one per row. */
  function WindowRegions(rs: seq<Record>, hours: int): seq<string> {
    CellRegions(Cells(HeatWindow(rs, hours)))
  }

  /** A bucket left out of the head of a list sorted by count has no larger
      count than any bucket in the head. */
  lemma LeftOutRanksLower<K>(bs: seq<Bucket<K>>, top: int, b: Bucket<K>)
    requires forall i, j :: 0 <= i < j < |bs| ==> bs[i].count >= bs[j].count
    requires b in bs && b.key !in Keys(Head(bs, top))
    ensures forall i :: 0 <= i < |Head(bs, top)| ==> b.count <= Head(bs, top)[i].count
  {
    var ranked := Head(bs, top);
    var k :| 0 <= k < |bs| && bs[k] == b;
    assert k >= |ranked|;
    forall i | 0 <= i < |ranked|
      ensures b.count <= ranked[i].count
    {
      assert ranked[i] == bs[i];
    }
  }

  /** A region left out of the head of the ranking has no more rows than any
      region in it. */
  lemma RankingLeftOut(w: seq<Record>, top: int, name: string)
    requires name in CellRegions(Cells(w))
    requires name !in Keys(Head(Ranking(w), top))
    ensures forall i :: 0 <= i < |Head(Ranking(w), top)| ==>
      multiset(CellRegions(Cells(w)))[name] <= Head(Ranking(w), top)[i].count
  {
    LeftOutKeyRanksLower(Ranking(w), top, CellRegions(Cells(w)), name);
  }

  /** A key of `ks` left out of the head of its buckets sorted by count
      occurs no more often than the key of any bucket in the head. */
  lemma LeftOutKeyRanksLower<K>(bs: seq<Bucket<K>>, top: int, ks: seq<K>, name: K)
    requires KeysOf(bs, BucketKey) == set k | k in ks
    requires forall b :: b in bs ==> b.count == multiset(ks)[b.key]
    requires forall i, j :: 0 <= i < j < |bs| ==> bs[i].count >= bs[j].count
    requires name in ks && name !in Keys(Head(bs, top))
    ensures forall i :: 0 <= i < |Head(bs, top)| ==> multiset(ks)[name] <= Head(bs, top)[i].count
  {
    assert name in KeysOf(bs, BucketKey);
    var b :| b in bs && BucketKey(b) == name;
    LeftOutRanksLower(bs, top, b);
  }

  /** A region of the window that did not make the cut has no more rows than
      any region that did. */
  lemma LeftOutRegionsRankLower(rs: seq<Record>, hours: int, top: int, name: string)
    requires name in WindowRegions(rs, hours)
    requires name !in BuildHeatmap(rs, hours, top).regions
    ensures forall i :: 0 <= i < |BuildHeatmap(rs, hours, top).totals| ==>
      multiset(WindowRegions(rs, hours))[name] <= BuildHeatmap(rs, hours, top).totals[i]
  {
    HeatmapRegions(rs, hours, top);
    RankingLeftOut(HeatWindow(rs, hours), top, name);
    HeatmapTotals(rs, hours, top);
  }

  /** Every key of `bs` is among `ks`. */
  ghost predicate Lists<K>(ks: seq<K>, bs: seq<Bucket<K>>) {
    forall k :: k in KeysOf(bs, BucketKey) ==> k in ks
  }

  /** A prefix of distinct-keyed buckets that lists every key is all of them. */
  lemma ListingAllKeys<K>(bs: seq<Bucket<K>>, n: nat)
    requires DistinctBy(bs, BucketKey) && n <= |bs|
    requires Lists(Keys(bs[..n]), bs)
    ensures n == |bs|
  {
    assert n < |bs| ==> BucketKey(bs[n]) in KeysOf(bs, BucketKey);
  }

  /** Listing all the buckets lists every key. */
  lemma KeysListed<K>(bs: seq<Bucket<K>>)
    ensures Lists(Keys(bs), bs)
  {
    forall k | k in KeysOf(bs, BucketKey)
      ensures k in Keys(bs)
    {
      var b :| b in bs && BucketKey(b) == k;
      var i :| 0 <= i < |bs| && bs[i] == b;
      assert Keys(bs)[i] == k;
    }
  }

  /** The heatmap's regions are the keys of the head of the ranking. */
  lemma HeatmapRegions(rs: seq<Record>, hours: int, top: int)
    ensures rs != [] ==> BuildHeatmap(rs, hours, top).regions == Keys(Head(Ranking(HeatWindow(rs, hours)), top))
    ensures rs == [] ==> WindowRegions(rs, hours) == []
  {
  }

  /** With `top >= 0`, either `top` regions are listed or every region of the
      window is. */
  lemma {:induction false} TopFillsOrCovers(rs: seq<Record>, hours: int, top: int)
    requires 0 <= top
    ensures |BuildHeatmap(rs, hours, top).regions| == top
         || forall name :: name in WindowRegions(rs, hours) ==> name in BuildHeatmap(rs, hours, top).regions
  {
    var regions := BuildHeatmap(rs, hours, top).regions;
    HeatmapRegions(rs, hours, top);
    if rs != [] && |regions| != top {
      var ranking := Ranking(HeatWindow(rs, hours));
      assert Head(ranking, top) == ranking;
      KeysListed(ranking);
    }
  }

  lemma {:induction false} SumOfCounts<K>(bs: seq<Bucket<K>>, totals: seq<nat>)
    requires |totals| == |bs| && forall i :: 0 <= i < |bs| ==> totals[i] == bs[i].count
    ensures Sum(totals) == Total(bs)
    decreases |bs|
  {
    if bs != [] {
      SumOfCounts(bs[1..], totals[1..]);
    }
  }

  /** When every key of `ks` is listed in the head of distinct-keyed buckets
      keyed by `ks`, the head is all of them. */
  lemma HeadCoveringAll<K>(bs: seq<Bucket<K>>, top: int, ks: seq<K>)
    requires DistinctBy(bs, BucketKey)
    requires KeysOf(bs, BucketKey) == set k | k in ks
    requires forall k :: k in ks ==> k in Keys(Head(bs, top))
    ensures Head(bs, top) == bs
  {
    var ranked := Head(bs, top);
    assert ranked == bs[..|ranked|];
    ListingAllKeys(bs, |ranked|);
  }

  /** When every region of the window is listed, the totals add up to the
      number of rows in the window: no row is lost or counted twice. */
  lemma {:induction false} TotalsConserveRows(rs: seq<Record>, hours: int, top: int)
    requires forall name :: name in WindowRegions(rs, hours) ==> name in BuildHeatmap(rs, hours, top).regions
    ensures Sum(BuildHeatmap(rs, hours, top).totals) == |HeatWindow(rs, hours)|
  {
    var hm := BuildHeatmap(rs, hours, top);
    HeatmapRegions(rs, hours, top);
    if rs != [] {
      var ranking := Ranking(HeatWindow(rs, hours));
      assert hm.regions == Keys(Head(ranking, top));
      HeadCoveringAll(ranking, top, WindowRegions(rs, hours));
      HeatmapTotals(rs, hours, top);
      SumOfCounts(ranking, hm.totals);
    }
  }

  /** The totals are the counts of the listed head of the ranking. */
  lemma HeatmapTotals(rs: seq<Record>, hours: int, top: int)
    requires rs != []
    ensures |BuildHeatmap(rs, hours, top).totals| == |Head(Ranking(HeatWindow(rs, hours)), top)|
    ensures forall i :: 0 <= i < |BuildHeatmap(rs, hours, top).totals| ==>
      BuildHeatmap(rs, hours, top).totals[i] == Head(Ranking(HeatWindow(rs, hours)), top)[i].count
  {
    var hm := BuildHeatmap(rs, hours, top);
    var ranked := Head(Ranking(HeatWindow(rs, hours)), top);
    HeatmapRegions(rs, hours, top);
    forall i | 0 <= i < |hm.totals|
      ensures hm.totals[i] == ranked[i].count
    {
      assert ranked[i] in Ranking(HeatWindow(rs, hours));
      assert hm.regions[i] == ranked[i].key;
    }
  }

  /** With every cell at hour 0, a region has no cell at a later hour. */
  lemma TalliesAtLaterHours(cs: seq<Cell>, region: string, h: int)
    requires forall i :: 0 <= i < |cs| ==> cs[i].hour == 0
    requires 1 <= h < 24
    ensures Tallies(cs, region)[h] == 0
  {
    forall i | 0 <= i < |cs|
      ensures cs[i] != Cell(region, h)
    {
    }
    assert Cell(region, h) !in multiset(cs);
  }

  /** Without any valid timestamp the window is every row, each at hour 0. */
  lemma UndatedCells(rs: seq<Record>, hours: int)
    requires MaxTimestamp(rs).None?
    ensures forall i :: 0 <= i < |Cells(HeatWindow(rs, hours))| ==> Cells(HeatWindow(rs, hours))[i].hour == 0
  {
    assert HeatWindow(rs, hours) == rs;
  }

  /** Rows tallied from cells all at hour 0 are zero after hour 0. */
  lemma RowsZeroAfterHourZero(cs: seq<Cell>, regions: seq<string>, matrix: seq<seq<nat>>)
    requires forall i :: 0 <= i < |cs| ==> cs[i].hour == 0
    requires |matrix| == |regions| && forall i :: 0 <= i < |matrix| ==> matrix[i] == Tallies(cs, regions[i])
    requires forall i :: 0 <= i < |matrix| ==> |matrix[i]| == 24
    ensures forall i, h :: 0 <= i < |matrix| && 1 <= h < 24 ==> matrix[i][h] == 0
  {
    forall i, h | 0 <= i < |matrix| && 1 <= h < 24
      ensures matrix[i][h] == 0
    {
      TalliesAtLaterHours(cs, regions[i], h);
    }
  }

  /** Without any valid timestamp every row is counted at hour 0. */
  lemma UndatedRowsAtHourZero(rs: seq<Record>, hours: int, top: int)
    requires MaxTimestamp(rs).None?
    ensures forall i, h :: 0 <= i < |BuildHeatmap(rs, hours, top).matrix| && 1 <= h < 24 ==>
      BuildHeatmap(rs, hours, top).matrix[i][h] == 0
  {
    var hm := BuildHeatmap(rs, hours, top);
    UndatedCells(rs, hours);
    RowsZeroAfterHourZero(Cells(HeatWindow(rs, hours)), hm.regions, hm.matrix);
  }

  /** Row `x` is counted under the label `name`: its region is `name`, or it
      has no region and `name` is `"Unknown"`. */
  predicate LabelledAs(x: Record, name: string) {
    x.region == Some(name) || (name == "Unknown" && x.region.None?)
  }

  /** The rows of `w` counted under the label `name`. */
  function Labelled(w: seq<Record>, name: string): seq<Record> {
    Where(w, (x: Record) => LabelledAs(x, name))
  }

  /** The cells carrying a label are the rows it stands for. */
  lemma {:induction false} LabelCount(w: seq<Record>, name: string)
    ensures multiset(CellRegions(Cells(w)))[name] == |Labelled(w, name)|
    decreases |w|
  {
    if w != [] {
      var x, rest := w[0], w[1..];
      assert w == [x] + rest;
      LabelCount(rest, name);
      var ns := CellRegions(Cells(rest));
      CellRegionsCons(x, rest);
      LabelledCons(x, rest, name);
      assert multiset([RegionName(x)] + ns) == multiset([RegionName(x)]) + multiset(ns);
    }
  }

  lemma CellRegionsCons(x: Record, rest: seq<Record>)
    ensures CellRegions(Cells([x] + rest)) == [RegionName(x)] + CellRegions(Cells(rest))
  {
    var ns := CellRegions(Cells([x] + rest));
    forall i | 1 <= i < |ns|
      ensures ns[i] == CellRegions(Cells(rest))[i - 1]
    {
      assert ([x] + rest)[i] == rest[i - 1];
    }
  }

  /** A row counts under `name` exactly when its cell carries `name`. */
  lemma LabelledCons(x: Record, rest: seq<Record>, name: string)
    ensures |Labelled([x] + rest, name)| == (if RegionName(x) == name then 1 else 0) + |Labelled(rest, name)|
  {
    WhereCons(x, rest, (y: Record) => LabelledAs(y, name));
    assert LabelledAs(x, name) <==> RegionName(x) == name;
  }

  /** Each listed total counts the window rows of its region, and the total
      listed for `"Unknown"` counts the rows without a region together with
      those whose region is literally `"Unknown"`. */
  lemma TotalsCountLabelledRows(rs: seq<Record>, hours: int, top: int, i: int)
    requires 0 <= i < |BuildHeatmap(rs, hours, top).regions|
    ensures BuildHeatmap(rs, hours, top).totals[i] ==
      |Labelled(HeatWindow(rs, hours), BuildHeatmap(rs, hours, top).regions[i])|
  {
    LabelCount(HeatWindow(rs, hours), BuildHeatmap(rs, hours, top).regions[i]);
  }

  /** Row `x` is counted at hour `h`: its timestamp falls in hour `h` of the
      day, or it is undated (the fallback case) and `h` is 0. */
  predicate AtHour(x: Record, h: int) {
    match x.timestamp
    case None => h == 0
    case Some(t) => HourOfDay(t) == h
  }

  /** The rows of `w` counted at hour `h`. */
  function AtHourRows(w: seq<Record>, h: int): seq<Record> {
    Where(w, (x: Record) => AtHour(x, h))
  }

  /** The cells at a label and an hour are the rows of that label counted at
      that hour. */
  lemma {:induction false} HourCount(w: seq<Record>, name: string, h: int)
    ensures multiset(Cells(w))[Cell(name, h)] == |AtHourRows(Labelled(w, name), h)|
    decreases |w|
  {
    if w != [] {
      var x, rest := w[0], w[1..];
      assert w == [x] + rest;
      HourCount(rest, name, h);
      assert Cells(w) == [CellOf(x)] + Cells(rest);
      var l := Labelled(rest, name);
      WhereCons(x, rest, (y: Record) => LabelledAs(y, name));
      if LabelledAs(x, name) {
        assert Labelled(w, name) == [x] + l;
        WhereCons(x, l, (y: Record) => AtHour(y, h));
      } else {
        assert Labelled(w, name) == l;
      }
    }
  }

  /** Each matrix entry counts the window rows of its region at its hour; in
      a window cut at a valid latest timestamp every row is dated, so the
      entry counts exactly the rows whose timestamp falls in that hour. */
  lemma MatrixCountsRowsAtHour(rs: seq<Record>, hours: int, top: int, i: int, h: int)
    requires 0 <= i < |BuildHeatmap(rs, hours, top).regions|
    requires 0 <= h < 24
    ensures BuildHeatmap(rs, hours, top).matrix[i][h] ==
      |AtHourRows(Labelled(HeatWindow(rs, hours), BuildHeatmap(rs, hours, top).regions[i]), h)|
    ensures MaxTimestamp(rs).Some? ==> forall x :: x in HeatWindow(rs, hours) ==> x.timestamp.Some?
  {
    var hm := BuildHeatmap(rs, hours, top);
    HourCount(HeatWindow(rs, hours), hm.regions[i], h);
    if MaxTimestamp(rs).Some? {
      forall x | x in HeatWindow(rs, hours)
        ensures x.timestamp.Some?
      {
        assert x in multiset(HeatWindow(rs, hours));
      }
    }
  }
}
