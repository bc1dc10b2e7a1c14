/** Generic sequence machinery shared by the aggregations: filtering,
    first-occurrence de-duplication, prefixes and sorting by a total preorder. */
module Seqs {
  import opened Wrappers

  /** No two positions of `s` carry the same key. */
  ghost predicate DistinctBy<T, K>(s: seq<T>, key: T -> K) {
    forall i, j :: 0 <= i < j < |s| ==> key(s[i]) != key(s[j])
  }

  /** The set of keys carried by the elements of `s`. */
  ghost function KeysOf<T, K>(s: seq<T>, key: T -> K): set<K> {
    set x | x in s :: key(x)
  }

  lemma KeysOfCons<T, K>(x: T, s: seq<T>, key: T -> K)
    ensures KeysOf([x] + s, key) == {key(x)} + KeysOf(s, key)
  {
    forall y | y in [x] + s
      ensures y == x || y in s
    {
    }
    forall k | k in KeysOf([x] + s, key)
      ensures k in {key(x)} + KeysOf(s, key)
    {
      var y :| y in [x] + s && key(y) == k;
    }
  }

  lemma DistinctByCons<T, K>(x: T, s: seq<T>, key: T -> K)
    ensures DistinctBy([x] + s, key) <==> key(x) !in KeysOf(s, key) && DistinctBy(s, key)
  {
    var t := [x] + s;
    if key(x) !in KeysOf(s, key) && DistinctBy(s, key) {
      forall i, j | 0 <= i < j < |t|
        ensures key(t[i]) != key(t[j])
      {
        if i == 0 {
          assert t[j] in s;
        } else {
          assert t[i] == s[i - 1] && t[j] == s[j - 1];
        }
      }
    }
    if DistinctBy(t, key) {
      forall y | y in s
        ensures key(y) != key(x)
      {
        var j :| 0 <= j < |s| && s[j] == y;
        assert t[0] == x && t[j + 1] == y;
        assert key(t[0]) != key(t[j + 1]);
      }
      assert DistinctBy(s, key) by {
        forall i, j | 0 <= i < j < |s|
          ensures key(s[i]) != key(s[j])
        {
          assert t[i + 1] == s[i] && t[j + 1] == s[j];
        }
      }
    }
  }

  /** Every earlier element is related to every later one. */
  ghost predicate Pairwise<T>(s: seq<T>, rel: (T, T) -> bool) {
    forall i, j :: 0 <= i < j < |s| ==> rel(s[i], s[j])
  }

  /** `le` is total and transitive: a sort key, possibly with ties. */
  ghost predicate TotalPreorder<T(!new)>(le: (T, T) -> bool) {
    && (forall a, b :: le(a, b) || le(b, a))
    && (forall a, b, c :: le(a, b) && le(b, c) ==> le(a, c))
  }

  /** The elements of `s` that satisfy `p`, in their original order
      (a SQL `WHERE` or a pandas boolean mask). */
  function Where<T(!new)>(s: seq<T>, p: T -> bool): (r: seq<T>)
    ensures |r| <= |s|
    ensures forall x :: x in r ==> p(x)
    ensures forall x :: multiset(r)[x] == if p(x) then multiset(s)[x] else 0
  {
    if s == [] then []
    else
      assert s == [s[0]] + s[1..];
      if p(s[0]) then [s[0]] + Where(s[1..], p) else Where(s[1..], p)
  }

  /** `Where` on a sequence with a known first element. */
  lemma WhereCons<T(!new)>(x: T, s: seq<T>, p: T -> bool)
    ensures Where([x] + s, p) == if p(x) then [x] + Where(s, p) else Where(s, p)
  {
    assert ([x] + s)[1..] == s;
  }

  /** The first `n` elements of `s` (all of them when `n >= |s|`, none when `n <= 0`). */
  function Take<T>(s: seq<T>, n: int): (r: seq<T>)
    ensures |r| == if n <= 0 then 0 else if n < |s| then n else |s|
    ensures r <= s
  {
    if n <= 0 then [] else if n < |s| then s[..n] else s
  }

  /** Whether `f` gives a result at `x`, as a predicate for `Where`. */
  function Present<T, U>(f: T -> Option<U>): T -> bool {
    (x: T) => f(x).Some?
  }

  /** The present results of `f` over `xs`, in order: one result for each
      element of `xs` at which `f` gives one. */
  function Collect<T(!new), U>(xs: seq<T>, f: T -> Option<U>): (ys: seq<U>)
    ensures |ys| == |Where(xs, Present(f))| <= |xs|
    ensures forall i :: 0 <= i < |ys| ==> f(Where(xs, Present(f))[i]) == Some(ys[i])
    ensures forall y :: y in ys ==> exists x :: x in xs && f(x) == Some(y)
    ensures forall x :: x in xs && f(x).Some? ==> f(x).value in ys
  {
    if xs == [] then []
    else
      var rest := Collect(xs[1..], f);
      CollectCons(xs[0], xs[1..], f, rest);
      assert [xs[0]] + xs[1..] == xs;
      if f(xs[0]).Some? then [f(xs[0]).value] + rest else rest
  }

  /** The step of `Collect`: what the results over `xs` say carries over to
      `[x] + xs`. */
  lemma CollectCons<T(!new), U>(x: T, xs: seq<T>, f: T -> Option<U>, rest: seq<U>)
    requires |rest| == |Where(xs, Present(f))|
    requires forall i :: 0 <= i < |rest| ==> f(Where(xs, Present(f))[i]) == Some(rest[i])
    requires forall y :: y in rest ==> exists z :: z in xs && f(z) == Some(y)
    requires forall z :: z in xs && f(z).Some? ==> f(z).value in rest
    ensures var s := [x] + xs;
            var ys := if f(x).Some? then [f(x).value] + rest else rest;
            && |ys| == |Where(s, Present(f))|
            && (forall i :: 0 <= i < |ys| ==> f(Where(s, Present(f))[i]) == Some(ys[i]))
            && (forall y :: y in ys ==> exists z :: z in s && f(z) == Some(y))
            && (forall z :: z in s && f(z).Some? ==> f(z).value in ys)
  {
    var s := [x] + xs;
    var ys := if f(x).Some? then [f(x).value] + rest else rest;
    var w := Where(xs, Present(f));
    WhereCons(x, xs, Present(f));
    assert Where(s, Present(f)) == if f(x).Some? then [x] + w else w;
    forall i | 0 <= i < |ys|
      ensures f(Where(s, Present(f))[i]) == Some(ys[i])
    {
      if f(x).Some? && i > 0 {
        assert ys[i] == rest[i - 1] && Where(s, Present(f))[i] == w[i - 1];
      }
    }
    forall y | y in ys
      ensures exists z :: z in s && f(z) == Some(y)
    {
      if y in rest {
        var z :| z in xs && f(z) == Some(y);
        assert z in s;
      } else {
        assert f(x) == Some(y);
      }
    }
    forall z | z in s && f(z).Some?
      ensures f(z).value in ys
    {
      if z != x {
        assert z in xs;
      }
    }
  }

  /** Over distinct inputs, results that each name their input are distinct
      too. */
  lemma CollectDistinct<T(!new), U>(xs: seq<T>, f: T -> Option<U>, key: U -> T)
    requires forall i, j :: 0 <= i < j < |xs| ==> xs[i] != xs[j]
    requires forall x :: x in xs && f(x).Some? ==> key(f(x).value) == x
    ensures DistinctBy(Collect(xs, f), key)
  {
    var ys := Collect(xs, f);
    var w := Where(xs, Present(f));
    var id := (x: T) => x;
    assert DistinctBy(xs, id);
    forall i, j | 0 <= i < j < |ys|
      ensures key(ys[i]) != key(ys[j])
    {
      assert multiset(w)[w[i]] > 0 && multiset(w)[w[j]] > 0;
      assert key(ys[i]) == w[i] && key(ys[j]) == w[j];
      if w[i] == w[j] {
        CountOfDuplicate(w, i, j);
        CountOfDistinct(xs, id, w[i]);
        assert false;
      }
    }
  }

  function Head<T>(s: seq<T>, n: int): (r: seq<T>)
    ensures r <= s
    ensures n >= 0 ==> |r| == if n < |s| then n else |s|
    ensures n < 0 ==> |r| == if |s| + n > 0 then |s| + n else 0
  {
    if n >= 0 then Take(s, n) else Take(s, |s| + n)
  }

  /** Keeps the first element carrying each key, skipping keys in `seen`. */
  function FirstBy<T, K>(xs: seq<T>, key: T -> K, seen: set<K>): seq<T>
    decreases |xs|
  {
    if xs == [] then []
    else if key(xs[0]) in seen then FirstBy(xs[1..], key, seen)
    else [xs[0]] + FirstBy(xs[1..], key, seen + {key(xs[0])})
  }

  /** What `FirstBy` keeps comes from `xs` with a fresh key, no key twice,
      and every key of `xs` is either already seen or kept. */
  lemma {:induction false} FirstByKeeps<T, K>(xs: seq<T>, key: T -> K, seen: set<K>)
    ensures forall y :: y in FirstBy(xs, key, seen) ==> y in xs && key(y) !in seen
    ensures DistinctBy(FirstBy(xs, key, seen), key)
    ensures forall x :: x in xs ==> key(x) in seen || key(x) in KeysOf(FirstBy(xs, key, seen), key)
    decreases |xs|
  {
    if xs != [] {
      assert forall x :: x in xs ==> x == xs[0] || x in xs[1..];
      if key(xs[0]) in seen {
        FirstByKeeps(xs[1..], key, seen);
      } else {
        var seen' := seen + {key(xs[0])};
        var rest := FirstBy(xs[1..], key, seen');
        FirstByKeeps(xs[1..], key, seen');
        KeysOfCons(xs[0], rest, key);
        DistinctByCons(xs[0], rest, key);
      }
    }
  }

  /** One step of `FirstBy` from position `i`. */
  lemma FirstByStep<T, K>(xs: seq<T>, i: int, key: T -> K, seen: set<K>)
    requires 0 <= i < |xs|
    ensures FirstBy(xs[i..], key, seen) ==
      if key(xs[i]) in seen then FirstBy(xs[i + 1..], key, seen)
      else [xs[i]] + FirstBy(xs[i + 1..], key, seen + {key(xs[i])})
  {
    assert xs[i..][1..] == xs[i + 1..];
  }

  /** Advancing a left-to-right `FirstBy` scan by one element: a kept prefix
      `out` grows by `xs[i]` exactly when its key is new. */
  lemma FirstByAdvance<T, K>(xs: seq<T>, i: int, key: T -> K, seen: set<K>, out: seq<T>)
    requires 0 <= i < |xs|
    requires FirstBy(xs, key, {}) == out + FirstBy(xs[i..], key, seen)
    ensures key(xs[i]) in seen ==> FirstBy(xs, key, {}) == out + FirstBy(xs[i + 1..], key, seen)
    ensures key(xs[i]) !in seen ==>
      FirstBy(xs, key, {}) == (out + [xs[i]]) + FirstBy(xs[i + 1..], key, seen + {key(xs[i])})
  {
    FirstByStep(xs, i, key, seen);
    if key(xs[i]) !in seen {
      var tail := FirstBy(xs[i + 1..], key, seen + {key(xs[i])});
      assert out + ([xs[i]] + tail) == (out + [xs[i]]) + tail;
    }
  }

  /** Every element kept by `FirstBy` is the earliest element of `xs` with its key. */
  lemma {:induction false} FirstByKeepsEarliest<T, K>(xs: seq<T>, key: T -> K, seen: set<K>, y: T, j: int)
    requires y in FirstBy(xs, key, seen)
    requires 0 <= j < |xs| && key(xs[j]) == key(y)
    ensures y in xs[..j + 1]
    decreases |xs|
  {
    FirstByKeeps(xs, key, seen);
    if key(xs[0]) in seen {
      assert j != 0;
      FirstByKeepsEarliest(xs[1..], key, seen, y, j - 1);
      assert xs[1..][..j] == xs[1..j + 1];
    } else if y != xs[0] {
      var seen' := seen + {key(xs[0])};
      assert y in FirstBy(xs[1..], key, seen');
      FirstByKeeps(xs[1..], key, seen');
      assert j != 0;
      FirstByKeepsEarliest(xs[1..], key, seen', y, j - 1);
      assert xs[1..][..j] == xs[1..j + 1];
    }
  }

  /** `FirstBy` keeps the relative order of what it keeps. */
  lemma {:induction false} FirstByPairwise<T, K>(xs: seq<T>, key: T -> K, seen: set<K>, rel: (T, T) -> bool)
    requires Pairwise(xs, rel)
    ensures Pairwise(FirstBy(xs, key, seen), rel)
    decreases |xs|
  {
    if xs != [] {
      assert Pairwise(xs[1..], rel);
      if key(xs[0]) in seen {
        FirstByPairwise(xs[1..], key, seen, rel);
      } else {
        var seen' := seen + {key(xs[0])};
        var rest := FirstBy(xs[1..], key, seen');
        FirstByPairwise(xs[1..], key, seen', rel);
        FirstByKeeps(xs[1..], key, seen');
        forall y | y in rest
          ensures rel(xs[0], y)
        {
          var k :| 0 <= k < |xs[1..]| && xs[1..][k] == y;
          assert xs[k + 1] == y;
        }
      }
    }
  }

  /** The elements of `s` are in non-decreasing `le` order. */
  ghost predicate Sorted<T>(s: seq<T>, le: (T, T) -> bool) {
    Pairwise(s, le)
  }

  /** Inserts `x` in front of the first element it may precede. */
  function Insert<T(!new)>(x: T, s: seq<T>, le: (T, T) -> bool): (r: seq<T>)
    requires TotalPreorder(le)
    requires Sorted(s, le)
    ensures Sorted(r, le)
    ensures multiset(r) == multiset(s) + multiset{x}
    ensures |r| == |s| + 1
  {
    if s == [] || le(x, s[0]) then
      InsertFront(x, s, le);
      [x] + s
    else
      var rest := Insert(x, s[1..], le);
      InsertBehind(x, s, rest, le);
      [s[0]] + rest
  }

  lemma InsertFront<T(!new)>(x: T, s: seq<T>, le: (T, T) -> bool)
    requires TotalPreorder(le) && Sorted(s, le)
    requires s == [] || le(x, s[0])
    ensures Sorted([x] + s, le)
  {
    var r := [x] + s;
    forall i, j | 0 <= i < j < |r|
      ensures le(r[i], r[j])
    {
      if i == 0 && j > 1 {
        assert le(s[0], s[j - 1]);
      }
    }
  }

  lemma InsertBehind<T(!new)>(x: T, s: seq<T>, rest: seq<T>, le: (T, T) -> bool)
    requires TotalPreorder(le) && Sorted(s, le)
    requires s != [] && !le(x, s[0])
    requires Sorted(rest, le) && multiset(rest) == multiset(s[1..]) + multiset{x}
    ensures Sorted([s[0]] + rest, le)
    ensures multiset([s[0]] + rest) == multiset(s) + multiset{x}
  {
    assert s == [s[0]] + s[1..];
    forall y | y in rest
      ensures le(s[0], y)
    {
      assert y in multiset(rest);
      if y != x {
        assert y in multiset(s[1..]);
      }
    }
    var r := [s[0]] + rest;
    forall i, j | 0 <= i < j < |r|
      ensures le(r[i], r[j])
    {
      if i == 0 {
        assert r[j] in rest;
      } else {
        assert r[i] == rest[i - 1] && r[j] == rest[j - 1];
      }
    }
  }

  /** A sort by `le`; the order among ties is not part of the contract. */
  function SortBy<T(!new)>(s: seq<T>, le: (T, T) -> bool): (r: seq<T>)
    requires TotalPreorder(le)
    ensures Sorted(r, le)
    ensures multiset(r) == multiset(s)
    ensures |r| == |s|
  {
    if s == [] then []
    else
      assert s == [s[0]] + s[1..];
      Insert(s[0], SortBy(s[1..], le), le)
  }

  lemma CountOfDuplicate<T>(s: seq<T>, i: int, j: int)
    requires 0 <= i < j < |s| && s[i] == s[j]
    ensures multiset(s)[s[i]] >= 2
  {
    assert s == s[..j] + s[j..];
    assert s[i] in s[..j];
    assert s[j] in s[j..];
  }

  lemma {:induction false} CountOfDistinct<T, K>(s: seq<T>, key: T -> K, x: T)
    requires DistinctBy(s, key)
    ensures multiset(s)[x] <= 1
    decreases |s|
  {
    if s != [] {
      assert s == [s[0]] + s[1..];
      assert DistinctBy(s[1..], key);
      CountOfDistinct(s[1..], key, x);
      if s[0] == x {
        assert x !in s[1..];
      }
    }
  }

  /** Reordering a sequence keeps its keys distinct. */
  lemma PermutationKeepsDistinct<T, K>(s: seq<T>, r: seq<T>, key: T -> K)
    requires multiset(r) == multiset(s)
    requires DistinctBy(s, key)
    ensures DistinctBy(r, key)
  {
    forall i, j | 0 <= i < j < |r|
      ensures key(r[i]) != key(r[j])
    {
      if key(r[i]) == key(r[j]) {
        assert r[i] in multiset(s) && r[j] in multiset(s);
        var a :| 0 <= a < |s| && s[a] == r[i];
        var b :| 0 <= b < |s| && s[b] == r[j];
        assert a == b;
        CountOfDuplicate(r, i, j);
        CountOfDistinct(s, key, r[i]);
        assert false;
      }
    }
  }
}
