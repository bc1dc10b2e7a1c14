/** Grouping with counts: the model of SQL `GROUP BY key` with `COUNT(*)` and of
    pandas `groupby(...).size()`. */
module Groups {
  import opened Seqs

  /** One group: a key and the number of rows carrying it. */
  datatype Bucket<K> = Bucket(key: K, count: nat)

  function BucketKey<K>(b: Bucket<K>): K {
    b.key
  }

  /** Sort order "count descending" (`ORDER BY COUNT(*) DESC`). */
  predicate ByCountDesc<K>(a: Bucket<K>, b: Bucket<K>) {
    a.count >= b.count
  }

  lemma ByCountDescIsPreorder<K(!new)>()
    ensures TotalPreorder(ByCountDesc<K>)
  {
  }

  /** The group keys, in order. */
  function Keys<K>(bs: seq<Bucket<K>>): (ks: seq<K>)
    ensures |ks| == |bs|
    ensures forall i :: 0 <= i < |bs| ==> ks[i] == bs[i].key
  {
    seq(|bs|, i requires 0 <= i < |bs| => bs[i].key)
  }

  /** The number of rows over all groups. */
  function Total<K>(bs: seq<Bucket<K>>): int {
    if bs == [] then 0 else bs[0].count + Total(bs[1..])
  }

  /** The count recorded for key `k`, or 0 when `k` has no group. */
  function CountFor<K(==)>(bs: seq<Bucket<K>>, k: K): nat {
    if bs == [] then 0 else if bs[0].key == k then bs[0].count else CountFor(bs[1..], k)
  }

  lemma {:induction false} CountForMember<K>(bs: seq<Bucket<K>>, b: Bucket<K>)
    requires DistinctBy(bs, BucketKey)
    requires b in bs
    ensures CountFor(bs, b.key) == b.count
    decreases |bs|
  {
    if bs[0] != b {
      assert DistinctBy(bs[1..], BucketKey);
      var i :| 0 <= i < |bs| && bs[i] == b;
      assert BucketKey(bs[0]) != BucketKey(bs[i]);
      CountForMember(bs[1..], b);
    }
  }

  /** Counts one more row with key `k`. */
  function Tally<K(==,!new)>(bs: seq<Bucket<K>>, k: K): (r: seq<Bucket<K>>)
    requires DistinctBy(bs, BucketKey)
    ensures DistinctBy(r, BucketKey)
    ensures KeysOf(r, BucketKey) == KeysOf(bs, BucketKey) + {k}
    ensures forall j :: CountFor(r, j) == CountFor(bs, j) + (if j == k then 1 else 0)
    ensures Total(r) == Total(bs) + 1
  {
    if bs == [] then
      KeysOfCons(Bucket(k, 1), [], BucketKey);
      [Bucket(k, 1)]
    else
      assert bs == [bs[0]] + bs[1..];
      DistinctByCons(bs[0], bs[1..], BucketKey);
      KeysOfCons(bs[0], bs[1..], BucketKey);
      if bs[0].key == k then
        var r := [Bucket(k, bs[0].count + 1)] + bs[1..];
        KeysOfCons(r[0], bs[1..], BucketKey);
        DistinctByCons(r[0], bs[1..], BucketKey);
        r
      else
        var rest := Tally(bs[1..], k);
        var r := [bs[0]] + rest;
        KeysOfCons(bs[0], rest, BucketKey);
        DistinctByCons(bs[0], rest, BucketKey);
        r
  }

  /** Groups `ks` by value, one bucket per distinct key in order of first
      appearance, each bucket counting the rows carrying its key. */
  function CountGroups<K(==,!new)>(ks: seq<K>): (bs: seq<Bucket<K>>)
    ensures DistinctBy(bs, BucketKey)
    ensures KeysOf(bs, BucketKey) == set k | k in ks
    ensures forall j :: CountFor(bs, j) == multiset(ks)[j]
    ensures Total(bs) == |ks|
  {
    if ks == [] then []
    else
      var init := ks[..|ks| - 1];
      assert ks == init + [ks[|ks| - 1]];
      Tally(CountGroups(init), ks[|ks| - 1])
  }

  /** Every bucket of `CountGroups(ks)` counts exactly the rows with its key,
      and so is never empty. */
  lemma GroupCounts<K(!new)>(ks: seq<K>, b: Bucket<K>)
    requires b in CountGroups(ks)
    ensures b.count == multiset(ks)[b.key] > 0
  {
    CountForMember(CountGroups(ks), b);
    assert BucketKey(b) in KeysOf(CountGroups(ks), BucketKey);
  }

  lemma {:induction false} TotalInsert<K(!new)>(b: Bucket<K>, bs: seq<Bucket<K>>, le: (Bucket<K>, Bucket<K>) -> bool)
    requires TotalPreorder(le) && Sorted(bs, le)
    ensures Total(Insert(b, bs, le)) == b.count + Total(bs)
    decreases |bs|
  {
    if bs != [] && !le(b, bs[0]) {
      assert Sorted(bs[1..], le);
      TotalInsert(b, bs[1..], le);
    }
  }

  /** Sorting buckets keeps the total number of rows. */
  lemma {:induction false} TotalSortBy<K(!new)>(bs: seq<Bucket<K>>, le: (Bucket<K>, Bucket<K>) -> bool)
    requires TotalPreorder(le)
    ensures Total(SortBy(bs, le)) == Total(bs)
    decreases |bs|
  {
    if bs != [] {
      TotalSortBy(bs[1..], le);
      TotalInsert(bs[0], SortBy(bs[1..], le), le);
    }
  }

  /** Totals of prefixes and suffixes add up. */
  lemma {:induction false} TotalSplit<K>(bs: seq<Bucket<K>>, n: nat)
    requires n <= |bs|
    ensures Total(bs) == Total(bs[..n]) + Total(bs[n..])
    decreases n
  {
    if n > 0 {
      assert bs[..n][1..] == bs[1..][..n - 1];
      TotalSplit(bs[1..], n - 1);
      assert bs[1..][n - 1..] == bs[n..];
    }
  }

  /** `GROUP BY k ... ORDER BY le`: one bucket per distinct key of `ks`,
      counting its occurrences, arranged by `le`. */
  function GroupAndSort<K(==,!new)>(ks: seq<K>, le: (Bucket<K>, Bucket<K>) -> bool): (bs: seq<Bucket<K>>)
    requires TotalPreorder(le)
    ensures DistinctBy(bs, BucketKey)
    ensures KeysOf(bs, BucketKey) == set k | k in ks
    ensures forall b :: b in bs ==> b.count == multiset(ks)[b.key] > 0
    ensures Sorted(bs, le)
    ensures Total(bs) == |ks|
  {
    var groups := CountGroups(ks);
    var bs := SortBy(groups, le);
    PermutationKeepsDistinct(groups, bs, BucketKey);
    TotalSortBy(groups, le);
    assert forall b :: b in bs <==> b in groups by {
      forall b
        ensures b in bs <==> b in groups
      {
        assert b in bs <==> b in multiset(bs);
        assert b in groups <==> b in multiset(groups);
      }
    }
    forall b | b in bs
      ensures b.count == multiset(ks)[b.key] > 0
    {
      GroupCounts(ks, b);
    }
    assert KeysOf(bs, BucketKey) == KeysOf(groups, BucketKey);
    bs
  }
}
