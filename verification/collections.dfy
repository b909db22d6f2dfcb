/** Table primitives the two scripts are built from: boolean-mask filtering,
    sorting, group keys in sorted order, and the reductions count, sum, min,
    max and mean. Everything is over immutable sequences (a table is a
    sequence of rows). */
module Collections {

  // ---------------------------------------------------------------------------
  // Boolean-mask filtering: `df[mask]`
  // ---------------------------------------------------------------------------

  /** The rows of `s` that satisfy `p`, in their original order. */
  function Filter<T(!new)>(s: seq<T>, p: T -> bool): (r: seq<T>)
    ensures |r| <= |s|
    ensures forall x :: x in r <==> x in s && p(x)
  {
    if s == [] then []
    else if p(s[0]) then [s[0]] + Filter(s[1..], p)
    else Filter(s[1..], p)
  }

  /** Filtering distributes over concatenation: no surviving row changes
      place relative to another. */
  lemma {:induction false} FilterAppend<T(!new)>(a: seq<T>, b: seq<T>, p: T -> bool)
    ensures Filter(a + b, p) == Filter(a, p) + Filter(b, p)
  {
    if a == [] {
      assert a + b == b;
    } else {
      assert (a + b)[0] == a[0];
      assert (a + b)[1..] == a[1..] + b;
      FilterAppend(a[1..], b, p);
    }
  }

  /** A mask that keeps every row leaves the table as it is. */
  lemma {:induction false} FilterKeepsAll<T(!new)>(s: seq<T>, p: T -> bool)
    requires forall x :: x in s ==> p(x)
    ensures Filter(s, p) == s
  {
    if s != [] {
      assert forall x :: x in s[1..] ==> x in s;
      FilterKeepsAll(s[1..], p);
    }
  }

  /** Filtering keeps the number of copies of every kept row. */
  lemma {:induction false} FilterMultiset<T(!new)>(s: seq<T>, p: T -> bool, x: T)
    ensures multiset(Filter(s, p))[x] == if p(x) then multiset(s)[x] else 0
  {
    if s != [] {
      assert s == [s[0]] + s[1..];
      FilterMultiset(s[1..], p, x);
    }
  }

  /** Rows with the same multiplicities filter to rows with the same multiplicities. */
  lemma FilterPermutation<T(!new)>(s: seq<T>, t: seq<T>, p: T -> bool)
    requires multiset(s) == multiset(t)
    ensures multiset(Filter(s, p)) == multiset(Filter(t, p))
  {
    forall x ensures multiset(Filter(s, p))[x] == multiset(Filter(t, p))[x] {
      FilterMultiset(s, p, x);
      FilterMultiset(t, p, x);
    }
  }

  // ---------------------------------------------------------------------------
  // Sorting: `sort_values`
  // ---------------------------------------------------------------------------

  /** `le` compares every two rows and is transitive. */
  ghost predicate TotalPreorder<T(!new)>(le: (T, T) -> bool) {
    && (forall a, b :: le(a, b) || le(b, a))
    && (forall a, b, c :: le(a, b) && le(b, c) ==> le(a, c))
  }

  predicate SortedBy<T>(s: seq<T>, le: (T, T) -> bool) {
    forall i, j :: 0 <= i < j < |s| ==> le(s[i], s[j])
  }

  /** Puts `x` in front of the first row it does not follow, so that it stays
      before the rows equal to it that came later in the input. */
  function Insert<T(!new)>(x: T, s: seq<T>, le: (T, T) -> bool): (r: seq<T>)
    requires TotalPreorder(le) && SortedBy(s, le)
    ensures multiset(r) == multiset(s) + multiset{x}
    ensures SortedBy(r, le)
  {
    if s == [] || le(x, s[0]) then
      PrecedesSorted(x, s, le);
      ConsSorted(x, s, le);
      [x] + s
    else
      var rest := Insert(x, s[1..], le);
      assert s == [s[0]] + s[1..];
      FollowsHead(x, s, rest, le);
      ConsSorted(s[0], rest, le);
      [s[0]] + rest
  }

  /** A row that precedes the head of a sorted table precedes all of it. */
  lemma PrecedesSorted<T(!new)>(x: T, s: seq<T>, le: (T, T) -> bool)
    requires TotalPreorder(le) && SortedBy(s, le)
    requires s == [] || le(x, s[0])
    ensures forall y :: y in s ==> le(x, y)
  {
    forall y | y in s ensures le(x, y) {
      var j :| 0 <= j < |s| && s[j] == y;
      if j > 0 { assert le(s[0], s[j]); }
    }
  }

  /** A row that precedes every row of a sorted table can head it. */
  lemma ConsSorted<T>(h: T, s: seq<T>, le: (T, T) -> bool)
    requires SortedBy(s, le)
    requires forall y :: y in s ==> le(h, y)
    ensures SortedBy([h] + s, le)
  {
    var r := [h] + s;
    forall i, j | 0 <= i < j < |r| ensures le(r[i], r[j]) {
      assert r[j] == s[j - 1] && s[j - 1] in s;
      if i > 0 { assert r[i] == s[i - 1]; }
    }
  }

  /** A row inserted after the head of a sorted table, into its tail, leaves
      every row of the new tail after that head. */
  lemma FollowsHead<T(!new)>(x: T, s: seq<T>, rest: seq<T>, le: (T, T) -> bool)
    requires TotalPreorder(le) && SortedBy(s, le)
    requires s != [] && !le(x, s[0])
    requires multiset(rest) == multiset(s[1..]) + multiset{x}
    ensures forall y :: y in rest ==> le(s[0], y)
  {
    forall y | y in rest ensures le(s[0], y) {
      assert y in multiset(rest);
      if y != x {
        assert y in multiset(s[1..]);
        var j :| 0 <= j < |s[1..]| && s[1..][j] == y;
        assert s[j + 1] == y;
      }
    }
  }

  /** Stable insertion sort: sorted by `le`, and a permutation of the input. */
  function InsertionSort<T(!new)>(s: seq<T>, le: (T, T) -> bool): (r: seq<T>)
    requires TotalPreorder(le)
    ensures |r| == |s|
    ensures multiset(r) == multiset(s)
    ensures SortedBy(r, le)
  {
    if s == [] then []
    else
      assert s == [s[0]] + s[1..];
      var r := Insert(s[0], InsertionSort(s[1..], le), le);
      assert |multiset(r)| == |multiset(s)|;
      r
  }

  /** Every filtered run of a sorted table is still sorted. */
  lemma {:induction false} FilterKeepsSorted<T(!new)>(s: seq<T>, p: T -> bool, le: (T, T) -> bool)
    requires SortedBy(s, le)
    ensures SortedBy(Filter(s, p), le)
  {
    if s != [] {
      assert SortedBy(s[1..], le);
      FilterKeepsSorted(s[1..], p, le);
      var rest := Filter(s[1..], p);
      if p(s[0]) {
        forall y | y in rest ensures le(s[0], y) {
          var j :| 0 <= j < |s[1..]| && s[1..][j] == y;
          assert s[j + 1] == y;
        }
        assert forall j :: 0 <= j < |rest| ==> rest[j] in rest;
      }
    }
  }

  // ---------------------------------------------------------------------------
  // Unique keys
  // ---------------------------------------------------------------------------

  /** No two rows of `s` share a key. */
  predicate DistinctBy<T, K(==)>(s: seq<T>, key: T -> K) {
    forall i, j :: 0 <= i < j < |s| ==> key(s[i]) != key(s[j])
  }

  lemma {:induction false} FilterKeepsDistinct<T(!new), K>(s: seq<T>, p: T -> bool, key: T -> K)
    requires DistinctBy(s, key)
    ensures DistinctBy(Filter(s, p), key)
  {
    if s != [] {
      var tail := s[1..];
      FilterKeepsDistinct(tail, p, key);
      if p(s[0]) {
        var rest := Filter(tail, p);
        forall y | y in rest ensures key(s[0]) != key(y) {
          var j :| 0 <= j < |tail| && tail[j] == y;
          assert s[j + 1] == y;
        }
        ConsDistinct(s[0], rest, key);
      }
    }
  }

  /** A row whose key no row of a key-distinct table has can head it. */
  lemma ConsDistinct<T, K>(h: T, s: seq<T>, key: T -> K)
    requires DistinctBy(s, key)
    requires forall y :: y in s ==> key(h) != key(y)
    ensures DistinctBy([h] + s, key)
  {
    var r := [h] + s;
    forall i, j | 0 <= i < j < |r| ensures key(r[i]) != key(r[j]) {
      assert r[j] == s[j - 1] && s[j - 1] in s;
      if i > 0 { assert r[i] == s[i - 1]; }
    }
  }

  lemma {:induction false} InsertKeepsDistinct<T(!new), K>(x: T, s: seq<T>, le: (T, T) -> bool, key: T -> K)
    requires TotalPreorder(le) && SortedBy(s, le)
    requires DistinctBy(s, key)
    requires forall y :: y in s ==> key(y) != key(x)
    ensures DistinctBy(Insert(x, s, le), key)
  {
    if s != [] && !le(x, s[0]) {
      InsertKeepsDistinct(x, s[1..], le, key);
      var rest := Insert(x, s[1..], le);
      assert s == [s[0]] + s[1..];
      forall y | y in rest ensures key(s[0]) != key(y) {
        assert y in multiset(rest);
        if y != x {
          assert y in multiset(s[1..]);
          var j :| 0 <= j < |s[1..]| && s[1..][j] == y;
          assert s[j + 1] == y;
        }
      }
      assert forall j :: 0 <= j < |rest| ==> rest[j] in rest;
    }
  }

  /** Sorting rows with unique keys leaves the keys unique. */
  lemma {:induction false} SortKeepsDistinct<T(!new), K>(s: seq<T>, le: (T, T) -> bool, key: T -> K)
    requires TotalPreorder(le)
    requires DistinctBy(s, key)
    ensures DistinctBy(InsertionSort(s, le), key)
  {
    if s != [] {
      SortKeepsDistinct(s[1..], le, key);
      var sorted := InsertionSort(s[1..], le);
      forall y | y in sorted ensures key(y) != key(s[0]) {
        assert y in multiset(s[1..]);
        var j :| 0 <= j < |s[1..]| && s[1..][j] == y;
        assert s[j + 1] == y;
      }
      InsertKeepsDistinct(s[0], sorted, le, key);
    }
  }

  // ---------------------------------------------------------------------------
  // Group keys: `groupby(...)` with its default sorted keys
  // ---------------------------------------------------------------------------

  ghost predicate StrictTotalOrder<K(!new)>(lt: (K, K) -> bool) {
    && (forall a :: !lt(a, a))
    && (forall a, b, c :: lt(a, b) && lt(b, c) ==> lt(a, c))
    && (forall a, b :: a == b || lt(a, b) || lt(b, a))
  }

  predicate StrictlySorted<K>(s: seq<K>, lt: (K, K) -> bool) {
    forall i, j :: 0 <= i < j < |s| ==> lt(s[i], s[j])
  }

  /** Adds `k` to a strictly sorted key list unless it is already there. */
  function InsertKey<K(!new,==)>(k: K, s: seq<K>, lt: (K, K) -> bool): (r: seq<K>)
    requires StrictTotalOrder(lt) && StrictlySorted(s, lt)
    ensures StrictlySorted(r, lt)
    ensures forall y :: y in r <==> y == k || y in s
  {
    if s == [] then [k]
    else if k == s[0] then s
    else if lt(k, s[0]) then
      assert forall j :: 0 <= j < |s| ==> lt(k, s[j]) by {
        forall j | 0 <= j < |s| ensures lt(k, s[j]) {
          if j > 0 { assert lt(s[0], s[j]); }
        }
      }
      [k] + s
    else
      var rest := InsertKey(k, s[1..], lt);
      assert s == [s[0]] + s[1..];
      assert forall y :: y in rest ==> lt(s[0], y) by {
        forall y | y in rest ensures lt(s[0], y) {
          if y != k {
            var j :| 0 <= j < |s[1..]| && s[1..][j] == y;
            assert s[j + 1] == y;
          }
        }
      }
      assert forall j :: 0 <= j < |rest| ==> rest[j] in rest;
      [s[0]] + rest
  }

  /** Some row of `t` has key `k`. */
  ghost predicate Occurs<T, K>(t: seq<T>, key: T -> K, k: K) {
    exists i :: 0 <= i < |t| && key(t[i]) == k
  }

  /** The distinct keys of the rows, ascending: the index of a `groupby`. */
  function SortedKeys<T(!new), K(!new,==)>(rows: seq<T>, key: T -> K, lt: (K, K) -> bool): (r: seq<K>)
    requires StrictTotalOrder(lt)
    ensures StrictlySorted(r, lt)
    ensures forall k :: k in r <==> Occurs(rows, key, k)
  {
    if rows == [] then []
    else
      var rest := SortedKeys(rows[1..], key, lt);
      assert forall i :: 1 <= i < |rows| ==> rows[i] == rows[1..][i - 1];
      InsertKey(key(rows[0]), rest, lt)
  }

  function HasKey<T, K(==)>(key: T -> K, k: K): T -> bool {
    (x: T) => key(x) == k
  }

  /** The rows of one group, in table order. */
  function Group<T(!new), K(==)>(t: seq<T>, key: T -> K, k: K): (g: seq<T>)
    ensures forall x :: x in g <==> x in t && key(x) == k
    ensures Occurs(t, key, k) <==> |g| > 0
  {
    var g := Filter(t, HasKey(key, k));
    assert Occurs(t, key, k) ==> |g| > 0 by {
      if Occurs(t, key, k) {
        var i :| 0 <= i < |t| && key(t[i]) == k;
        assert t[i] in g;
      }
    }
    assert |g| > 0 ==> Occurs(t, key, k) by {
      if |g| > 0 {
        assert g[0] in t;
        var i :| 0 <= i < |t| && t[i] == g[0];
      }
    }
    g
  }

  /** The sizes of the groups of the keys `ks`, added up. */
  function GroupSizes<T(!new), K(==)>(t: seq<T>, key: T -> K, ks: seq<K>): int {
    if ks == [] then 0 else |Group(t, key, ks[0])| + GroupSizes(t, key, ks[1..])
  }

  lemma {:induction false} GroupSizesOfNothing<T(!new), K>(key: T -> K, ks: seq<K>)
    ensures GroupSizes([], key, ks) == 0
  {
    if ks != [] { GroupSizesOfNothing(key, ks[1..]); }
  }

  lemma {:induction false} GroupSizesOneMore<T(!new), K>(x: T, t: seq<T>, key: T -> K, ks: seq<K>)
    requires forall i, j :: 0 <= i < j < |ks| ==> ks[i] != ks[j]
    ensures GroupSizes([x] + t, key, ks) == GroupSizes(t, key, ks) + (if key(x) in ks then 1 else 0)
  {
    if ks != [] {
      assert ([x] + t)[1..] == t;
      assert forall i, j :: 0 <= i < j < |ks[1..]| ==> ks[1..][i] != ks[1..][j] by {
        forall i, j | 0 <= i < j < |ks[1..]| ensures ks[1..][i] != ks[1..][j] {
          assert ks[1..][i] == ks[i + 1] && ks[1..][j] == ks[j + 1];
        }
      }
      GroupSizesOneMore(x, t, key, ks[1..]);
      if key(x) == ks[0] {
        assert key(x) !in ks[1..] by {
          forall j | 0 <= j < |ks[1..]| ensures ks[1..][j] != ks[0] {
            assert ks[1..][j] == ks[j + 1];
          }
        }
      }
      assert key(x) in ks <==> key(x) == ks[0] || key(x) in ks[1..];
    }
  }

  /** Counting conservation: when the keys are distinct and cover every row,
      the group sizes add up to the number of rows. */
  lemma {:induction false} GroupSizesTotal<T(!new), K>(t: seq<T>, key: T -> K, ks: seq<K>)
    requires forall i, j :: 0 <= i < j < |ks| ==> ks[i] != ks[j]
    requires forall x :: x in t ==> key(x) in ks
    ensures GroupSizes(t, key, ks) == |t|
  {
    if t == [] {
      GroupSizesOfNothing(key, ks);
    } else {
      assert t == [t[0]] + t[1..];
      assert forall x :: x in t[1..] ==> x in t;
      GroupSizesTotal(t[1..], key, ks);
      GroupSizesOneMore(t[0], t[1..], key, ks);
    }
  }

  lemma StrictlySortedDistinct<K(!new)>(s: seq<K>, lt: (K, K) -> bool)
    requires StrictTotalOrder(lt) && StrictlySorted(s, lt)
    ensures forall i, j :: 0 <= i < j < |s| ==> s[i] != s[j]
  {
  }

  // ---------------------------------------------------------------------------
  // Reductions: count, sum, min, max, mean
  // ---------------------------------------------------------------------------

  function SumOf<T>(s: seq<T>, f: T -> int): int {
    if s == [] then 0 else f(s[0]) + SumOf(s[1..], f)
  }

  lemma {:induction false} InsertKeepsSum<T(!new)>(x: T, s: seq<T>, le: (T, T) -> bool, f: T -> int)
    requires TotalPreorder(le) && SortedBy(s, le)
    ensures SumOf(Insert(x, s, le), f) == f(x) + SumOf(s, f)
  {
    if s != [] && !le(x, s[0]) {
      InsertKeepsSum(x, s[1..], le, f);
    }
  }

  /** Sorting does not change a column total. */
  lemma {:induction false} SortKeepsSum<T(!new)>(s: seq<T>, le: (T, T) -> bool, f: T -> int)
    requires TotalPreorder(le)
    ensures SumOf(InsertionSort(s, le), f) == SumOf(s, f)
  {
    if s != [] {
      SortKeepsSum(s[1..], le, f);
      InsertKeepsSum(s[0], InsertionSort(s[1..], le), le, f);
    }
  }

  /** The smallest value of column `f`: the `"min"` reduction. */
  function MinOf<T>(s: seq<T>, f: T -> int): (m: int)
    requires |s| > 0
    ensures forall i :: 0 <= i < |s| ==> m <= f(s[i])
    ensures exists i :: 0 <= i < |s| && m == f(s[i])
  {
    if |s| == 1 then f(s[0])
    else
      var rest := MinOf(s[1..], f);
      assert forall i :: 1 <= i < |s| ==> s[i] == s[1..][i - 1];
      if f(s[0]) <= rest then f(s[0]) else rest
  }

  /** The largest value of column `f`: the `"max"` reduction. */
  function MaxOf<T>(s: seq<T>, f: T -> int): (m: int)
    requires |s| > 0
    ensures forall i :: 0 <= i < |s| ==> f(s[i]) <= m
    ensures exists i :: 0 <= i < |s| && m == f(s[i])
  {
    if |s| == 1 then f(s[0])
    else
      var rest := MaxOf(s[1..], f);
      assert forall i :: 1 <= i < |s| ==> s[i] == s[1..][i - 1];
      if rest <= f(s[0]) then f(s[0]) else rest
  }

  /** The minimum is the floor of a column that reaches its floor. */
  lemma MinOfIsFloor<T>(s: seq<T>, f: T -> int, lo: int, k: nat)
    requires k < |s| && f(s[k]) == lo
    requires forall i :: 0 <= i < |s| ==> lo <= f(s[i])
    ensures MinOf(s, f) == lo
  {
    var i :| 0 <= i < |s| && MinOf(s, f) == f(s[i]);
  }

  function RealSumOf<T>(s: seq<T>, f: T -> real): real {
    if s == [] then 0.0 else f(s[0]) + RealSumOf(s[1..], f)
  }

  /** The arithmetic mean of column `f`, taken exactly (no rounding). */
  function Mean<T>(s: seq<T>, f: T -> real): real
    requires |s| > 0
  {
    RealSumOf(s, f) / (|s| as real)
  }

  lemma RealSumBounds<T(!new)>(s: seq<T>, f: T -> real, lo: real, hi: real)
    requires forall x :: x in s ==> lo <= f(x) <= hi
    ensures (|s| as real) * lo <= RealSumOf(s, f) <= (|s| as real) * hi
  {
    RealSumAtLeast(s, f, lo);
    RealSumAtMost(s, f, hi);
  }

  lemma {:induction false} RealSumAtMost<T(!new)>(s: seq<T>, f: T -> real, hi: real)
    requires forall x :: x in s ==> f(x) <= hi
    ensures RealSumOf(s, f) <= (|s| as real) * hi
  {
    if s != [] {
      var tail := s[1..];
      forall x | x in tail ensures f(x) <= hi {
        var i :| 0 <= i < |tail| && tail[i] == x;
        assert s[i + 1] == x;
      }
      RealSumAtMost(tail, f, hi);
      assert s[0] in s;
      var n := |tail| as real;
      assert |s| as real == n + 1.0;
      assert RealSumOf(s, f) == f(s[0]) + RealSumOf(tail, f);
      assert (n + 1.0) * hi == n * hi + hi;
    }
  }


  lemma {:induction false} RealSumAtLeast<T(!new)>(s: seq<T>, f: T -> real, lo: real)
    requires forall x :: x in s ==> lo <= f(x)
    ensures (|s| as real) * lo <= RealSumOf(s, f)
  {
    if s != [] {
      var tail := s[1..];
      forall x | x in tail ensures lo <= f(x) {
        var i :| 0 <= i < |tail| && tail[i] == x;
        assert s[i + 1] == x;
      }
      RealSumAtLeast(tail, f, lo);
      assert s[0] in s;
      var n := |tail| as real;
      assert |s| as real == n + 1.0;
      assert RealSumOf(s, f) == f(s[0]) + RealSumOf(tail, f);
      assert (n + 1.0) * lo == n * lo + lo;
    }
  }


  /** A mean is at least any lower bound of its column. */
  lemma MeanAtLeast<T(!new)>(s: seq<T>, f: T -> real, lo: real)
    requires |s| > 0
    requires forall x :: x in s ==> lo <= f(x)
    ensures lo <= Mean(s, f)
  {
    RealSumAtLeast(s, f, lo);
    assert RealSumOf(s, f) == Mean(s, f) * (|s| as real);
  }

  /** A mean lies between any lower and upper bound of its column. */
  lemma MeanBounds<T(!new)>(s: seq<T>, f: T -> real, lo: real, hi: real)
    requires |s| > 0
    requires forall x :: x in s ==> lo <= f(x) <= hi
    ensures lo <= Mean(s, f) <= hi
  {
    RealSumBounds(s, f, lo, hi);
    var n := |s| as real;
    var m := Mean(s, f);
    assert RealSumOf(s, f) == m * n;
  }
}
