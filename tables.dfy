/**
 * The pandas vocabulary the metrics are written in, over a table held as a
 * sequence of rows: boolean-mask filtering, `groupby` on a nullable key (rows
 * whose key is null are dropped), `sum`/`mean` over a group, and
 * `sort_values(ascending=False)`.
 */
module Tables {
  import opened Wrappers

  /** `Series.apply(f)` for a conversion that cannot fail: `f` applied to every row. */
  function Map<A, B>(s: seq<A>, f: A -> B): (r: seq<B>)
    ensures |r| == |s|
    ensures forall i :: 0 <= i < |s| ==> r[i] == f(s[i])
  {
    seq(|s|, i requires 0 <= i < |s| => f(s[i]))
  }

  /** Every row's image is in the mapped column, and every entry there is some row's image. */
  lemma MapMembers<A, B>(s: seq<A>, f: A -> B)
    ensures forall x :: x in s ==> f(x) in Map(s, f)
    ensures forall y :: y in Map(s, f) ==> exists x :: x in s && f(x) == y
  {
    forall x | x in s
      ensures f(x) in Map(s, f)
    {
      var i :| 0 <= i < |s| && s[i] == x;
      assert Map(s, f)[i] == f(x);
    }
  }

  /** `df[mask]`: the rows that satisfy `p`, in their original order. */
  function Filter<T(!new)>(s: seq<T>, p: T -> bool): (r: seq<T>)
    ensures |r| <= |s|
    ensures forall x :: x in r <==> x in s && p(x)
  {
    if s == [] then []
    else
      assert s == s[..|s| - 1] + [s[|s| - 1]];
      Filter(s[..|s| - 1], p) + (if p(s[|s| - 1]) then [s[|s| - 1]] else [])
  }

  /**
   * `df[mask]` followed by columns computed from each kept row: `f` of every
   * row that satisfies `p`, in order.
   */
  function FilterMap<T(!new), U(!new)>(s: seq<T>, p: T -> bool, f: T --> U): (r: seq<U>)
    requires forall x :: p(x) ==> f.requires(x)
    ensures forall y :: y in r <==> exists x :: x in s && p(x) && y == f(x)
  {
    var kept := Filter(s, p);
    var r := seq(|kept|, i requires 0 <= i < |kept| => f(kept[i]));
    assert forall y :: y in r <==> exists x :: x in kept && y == f(x) by {
      forall y | y in r ensures exists x :: x in kept && y == f(x) {
        var i :| 0 <= i < |r| && r[i] == y;
        assert kept[i] in kept;
      }
      forall x | x in kept ensures f(x) in r {
        var i :| 0 <= i < |kept| && kept[i] == x;
        assert r[i] == f(x);
      }
    }
    r
  }

  /**
   * Filtering builds its result row by row: each row that satisfies `p` is
   * kept once for each time it occurs, in order, and no other row is.
   */
  lemma FilterMapSnoc<T(!new), U(!new)>(s: seq<T>, x: T, p: T -> bool, f: T --> U)
    requires forall y :: p(y) ==> f.requires(y)
    ensures FilterMap([], p, f) == []
    ensures FilterMap(s + [x], p, f) == FilterMap(s, p, f) + (if p(x) then [f(x)] else [])
  {
    assert (s + [x])[..|s|] == s;
    var kept := Filter(s, p);
    var kept' := Filter(s + [x], p);
    assert kept' == kept + (if p(x) then [x] else []);
    var r := FilterMap(s, p, f);
    var r' := FilterMap(s + [x], p, f);
    var tail: seq<U> := if p(x) then [f(x)] else [];
    assert |r'| == |kept'| == |r| + |tail|;
    forall i | 0 <= i < |r'|
      ensures r'[i] == (r + tail)[i]
    {
      if i < |kept| {
        assert kept'[i] == kept[i];
      }
    }
  }

  /** The rows of one group: those whose key is `Some(k)`, in their original order. */
  function Group<T(!new), K(==,!new)>(s: seq<T>, key: T -> Option<K>, k: K): (g: seq<T>)
    ensures |g| <= |s|
    ensures forall x :: x in g <==> x in s && key(x) == Some(k)
  {
    if s == [] then []
    else
      assert s == s[..|s| - 1] + [s[|s| - 1]];
      Group(s[..|s| - 1], key, k) + (if key(s[|s| - 1]) == Some(k) then [s[|s| - 1]] else [])
  }

  ghost predicate Distinct<K>(ks: seq<K>)
  {
    forall i, j :: 0 <= i < j < |ks| ==> ks[i] != ks[j]
  }

  /**
   * The group keys: each non-null key once, in order of first appearance.
   * A key is listed exactly when its group is non-empty.
   */
  function Keys<T(!new), K(==,!new)>(s: seq<T>, key: T -> Option<K>): (ks: seq<K>)
    ensures Distinct(ks)
    ensures |ks| <= |s|
    ensures forall k :: k in ks <==> |Group(s, key, k)| > 0
  {
    if s == [] then []
    else
      var init := Keys(s[..|s| - 1], key);
      var last := key(s[|s| - 1]);
      if last.Some? && last.value !in init then init + [last.value] else init
  }

  lemma FilterSnoc<T(!new)>(s: seq<T>, x: T, p: T -> bool)
    ensures Filter(s + [x], p) == Filter(s, p) + (if p(x) then [x] else [])
  {
    assert (s + [x])[..|s|] == s;
  }

  lemma GroupSnoc<T(!new), K(!new)>(s: seq<T>, x: T, key: T -> Option<K>, k: K)
    ensures Group(s + [x], key, k) == Group(s, key, k) + (if key(x) == Some(k) then [x] else [])
  {
    assert (s + [x])[..|s|] == s;
  }

  /** A group is non-empty exactly when some row carries its key. */
  lemma GroupNonEmpty<T(!new), K(!new)>(s: seq<T>, key: T -> Option<K>, k: K)
    ensures |Group(s, key, k)| > 0 <==> exists x :: x in s && key(x) == Some(k)
  {
    var g := Group(s, key, k);
    if |g| > 0 {
      assert g[0] in g;
    }
  }

  /** `drop_duplicates()`: the first occurrence of every row, in order. */
  function Dedup<T(==)>(s: seq<T>): (r: seq<T>)
    ensures |r| <= |s|
  {
    if s == [] then []
    else
      var init := s[..|s| - 1];
      Dedup(init) + (if s[|s| - 1] in init then [] else [s[|s| - 1]])
  }

  lemma DedupSnoc<T>(s: seq<T>, x: T)
    ensures Dedup(s + [x]) == Dedup(s) + (if x in s then [] else [x])
  {
    assert (s + [x])[..|s|] == s;
  }

  /** Rows that are already distinct are all kept, in order. */
  lemma {:induction false} DedupOfDistinct<T>(s: seq<T>)
    requires Distinct(s)
    ensures Dedup(s) == s
  {
    if s != [] {
      var init := s[..|s| - 1];
      assert Distinct(init);
      DedupOfDistinct(init);
      assert s[|s| - 1] !in init;
      assert s == init + [s[|s| - 1]];
    }
  }

  /** Dropping duplicates keeps every row once and adds none. */
  lemma {:induction false} DedupSpec<T(!new)>(s: seq<T>)
    ensures Distinct(Dedup(s))
    ensures forall x :: x in Dedup(s) <==> x in s
  {
    if s != [] {
      var init := s[..|s| - 1];
      DedupSpec(init);
      assert s == init + [s[|s| - 1]];
    }
  }

  /** `sum()` of one column over the rows of `s`. */
  function Sum<T>(s: seq<T>, f: T -> real): real
  {
    if s == [] then 0.0 else Sum(s[..|s| - 1], f) + f(s[|s| - 1])
  }

  /** A column that is zero on every row sums to zero. */
  lemma {:induction false} SumOfZeros<T>(s: seq<T>, f: T -> real)
    requires forall i :: 0 <= i < |s| ==> f(s[i]) == 0.0
    ensures Sum(s, f) == 0.0
  {
    if s != [] {
      SumOfZeros(s[..|s| - 1], f);
    }
  }

  /** A column that is non-negative on every row has a non-negative sum. */
  lemma {:induction false} SumNonNegative<T>(s: seq<T>, f: T -> real)
    requires forall i :: 0 <= i < |s| ==> f(s[i]) >= 0.0
    ensures Sum(s, f) >= 0.0
  {
    if s != [] {
      SumNonNegative(s[..|s| - 1], f);
    }
  }

  /** `mean()` of one column over a non-empty group. */
  function Mean<T>(s: seq<T>, f: T -> real): real
    requires |s| > 0
  {
    Sum(s, f) / |s| as real
  }

  /** A column that is non-negative on every row of a non-empty group has a non-negative mean. */
  lemma MeanNonNegative<T>(s: seq<T>, f: T -> real)
    requires |s| > 0
    requires forall i :: 0 <= i < |s| ==> f(s[i]) >= 0.0
    ensures Mean(s, f) >= 0.0
  {
    SumNonNegative(s, f);
    var n := |s| as real;
    var q := Sum(s, f) / n;
    assert q * n == Sum(s, f);
  }

  /** The mean times the number of rows gives back the sum. */
  lemma MeanTimesCount<T>(s: seq<T>, f: T -> real)
    requires |s| > 0
    ensures (|s| as real) * Mean(s, f) == Sum(s, f)
  {
    var n := |s| as real;
    var q := Sum(s, f) / n;
    assert q * n == Sum(s, f);
  }

  /** The rows are ordered from the highest score to the lowest. */
  ghost predicate NonIncreasing<T>(s: seq<T>, score: T -> real)
  {
    forall i, j :: 0 <= i < j < |s| ==> score(s[i]) >= score(s[j])
  }

  /** No two rows share a key. */
  ghost predicate DistinctBy<T, K>(s: seq<T>, keyOf: T -> K)
  {
    forall i, j :: 0 <= i < j < |s| ==> keyOf(s[i]) != keyOf(s[j])
  }

  /** Selecting a group keeps rows that differ in `keyOf` apart. */
  lemma {:induction false} GroupKeepsDistinct<T(!new), K(!new), J>(s: seq<T>, key: T -> Option<K>, k: K, keyOf: T -> J)
    requires DistinctBy(s, keyOf)
    ensures DistinctBy(Group(s, key, k), keyOf)
  {
    if s != [] {
      var init := s[..|s| - 1];
      var x := s[|s| - 1];
      assert s == init + [x];
      assert DistinctBy(init, keyOf);
      GroupKeepsDistinct(init, key, k, keyOf);
      GroupSnoc(init, x, key, k);
      if key(x) == Some(k) {
        LastAvoidsInit(init, x, keyOf);
        AppendKeepsDistinct(Group(init, key, k), x, keyOf);
      }
    }
  }

  /** The last row of rows with distinct keys has a key no earlier row has. */
  lemma LastAvoidsInit<T, J>(init: seq<T>, x: T, keyOf: T -> J)
    requires DistinctBy(init + [x], keyOf)
    ensures forall y :: y in init ==> keyOf(y) != keyOf(x)
  {
    var s := init + [x];
    forall y | y in init
      ensures keyOf(y) != keyOf(x)
    {
      var i :| 0 <= i < |init| && init[i] == y;
      assert s[i] == y && s[|init|] == x;
    }
  }

  lemma AppendKeepsDistinct<T, J>(g: seq<T>, x: T, keyOf: T -> J)
    requires DistinctBy(g, keyOf)
    requires forall y :: y in g ==> keyOf(y) != keyOf(x)
    ensures DistinctBy(g + [x], keyOf)
  {
    var r := g + [x];
    forall i, j | 0 <= i < j < |r|
      ensures keyOf(r[i]) != keyOf(r[j])
    {
      assert r[i] == g[i];
      if j < |g| {
        assert r[j] == g[j];
      } else {
        assert g[i] in g;
      }
    }
  }

  /** A sequence without repeats has as many elements as the set of its elements. */
  lemma {:induction false} DistinctCardinality<T>(s: seq<T>)
    requires Distinct(s)
    ensures |set x | x in s| == |s|
  {
    if s != [] {
      var init := s[..|s| - 1];
      var x := s[|s| - 1];
      assert s == init + [x];
      assert Distinct(init);
      DistinctCardinality(init);
      assert x !in init;
      assert (set y | y in s) == (set y | y in init) + {x};
    }
  }

  /** Two sequences without repeats that hold the same elements have the same length. */
  lemma SameElementsSameLength<T>(a: seq<T>, b: seq<T>)
    requires Distinct(a) && Distinct(b)
    requires forall x :: x in a <==> x in b
    ensures |a| == |b|
  {
    DistinctCardinality(a);
    DistinctCardinality(b);
    assert (set x | x in a) == (set x | x in b);
  }

  /** Rows that all share one key and no two of which share a key are at most one row. */
  lemma OneKeyOneRow<T, K>(s: seq<T>, keyOf: T -> K, k: K)
    requires DistinctBy(s, keyOf)
    requires forall i :: 0 <= i < |s| ==> keyOf(s[i]) == k
    ensures |s| <= 1
  {
    FirstTwoKeys(s, keyOf);
  }

  lemma FirstTwoKeys<T, K>(s: seq<T>, keyOf: T -> K)
    ensures DistinctBy(s, keyOf) && 1 < |s| ==> keyOf(s[0]) != keyOf(s[1])
  {
  }

  function Insert<T(!new)>(x: T, s: seq<T>, score: T -> real): (r: seq<T>)
    requires NonIncreasing(s, score)
    ensures multiset(r) == multiset(s) + multiset{x}
    ensures NonIncreasing(r, score)
  {
    if s == [] || score(x) >= score(s[0]) then [x] + s
    else
      var tail := Insert(x, s[1..], score);
      assert s == [s[0]] + s[1..];
      TailBelowHead(x, s, score, tail);
      PrependKeepsOrder(s[0], tail, score);
      [s[0]] + tail
  }

  /** Whatever `x` joins below the head of `s` stays at or under the head's score. */
  lemma TailBelowHead<T>(x: T, s: seq<T>, score: T -> real, tail: seq<T>)
    requires NonIncreasing(s, score) && s != [] && score(x) < score(s[0])
    requires multiset(tail) == multiset(s[1..]) + multiset{x}
    ensures forall i :: 0 <= i < |tail| ==> score(tail[i]) <= score(s[0])
  {
    forall i | 0 <= i < |tail|
      ensures score(tail[i]) <= score(s[0])
    {
      assert tail[i] in multiset(tail);
      if tail[i] != x {
        assert tail[i] in multiset(s[1..]);
        var j :| 0 <= j < |s[1..]| && s[1..][j] == tail[i];
        assert s[j + 1] == tail[i];
      }
    }
  }

  lemma PrependKeepsOrder<T>(h: T, tail: seq<T>, score: T -> real)
    requires NonIncreasing(tail, score)
    requires forall i :: 0 <= i < |tail| ==> score(tail[i]) <= score(h)
    ensures NonIncreasing([h] + tail, score)
  {
    var r := [h] + tail;
    forall i, j | 0 <= i < j < |r|
      ensures score(r[i]) >= score(r[j])
    {
      assert r[j] == tail[j - 1];
      if i > 0 {
        assert r[i] == tail[i - 1];
      }
    }
  }

  /** `sort_values(..., ascending=False)`: a reordering of the rows by non-increasing score. */
  function SortDesc<T(!new)>(s: seq<T>, score: T -> real): (r: seq<T>)
    ensures multiset(r) == multiset(s)
    ensures NonIncreasing(r, score)
  {
    if s == [] then []
    else
      assert s == [s[0]] + s[1..];
      Insert(s[0], SortDesc(s[1..], score), score)
  }

  lemma {:induction false} InsertKeepsDistinct<T(!new), K>(x: T, s: seq<T>, score: T -> real, keyOf: T -> K)
    requires NonIncreasing(s, score)
    requires DistinctBy(s, keyOf)
    requires forall y :: y in s ==> keyOf(y) != keyOf(x)
    ensures DistinctBy(Insert(x, s, score), keyOf)
  {
    if s == [] || score(x) >= score(s[0]) {
      PrependKeepsDistinct(x, s, keyOf);
    } else {
      var tail := Insert(x, s[1..], score);
      assert s == [s[0]] + s[1..];
      InsertKeepsDistinct(x, s[1..], score, keyOf);
      TailAvoidsHead(x, s, tail, keyOf);
      PrependKeepsDistinct(s[0], tail, keyOf);
    }
  }

  /** Whatever `x` joins below the head of `s` has a key other than the head's. */
  lemma TailAvoidsHead<T, K>(x: T, s: seq<T>, tail: seq<T>, keyOf: T -> K)
    requires s != [] && DistinctBy(s, keyOf) && keyOf(x) != keyOf(s[0])
    requires multiset(tail) == multiset(s[1..]) + multiset{x}
    ensures forall y :: y in tail ==> keyOf(y) != keyOf(s[0])
  {
    forall y | y in tail
      ensures keyOf(y) != keyOf(s[0])
    {
      assert y in multiset(tail);
      if y != x {
        assert y in multiset(s[1..]);
        var j :| 0 <= j < |s[1..]| && s[1..][j] == y;
        assert s[j + 1] == y;
      }
    }
  }

  lemma PrependKeepsDistinct<T, K>(h: T, tail: seq<T>, keyOf: T -> K)
    requires DistinctBy(tail, keyOf)
    requires forall y :: y in tail ==> keyOf(y) != keyOf(h)
    ensures DistinctBy([h] + tail, keyOf)
  {
    var r := [h] + tail;
    forall i, j | 0 <= i < j < |r|
      ensures keyOf(r[i]) != keyOf(r[j])
    {
      assert r[j] == tail[j - 1];
      if i > 0 {
        assert r[i] == tail[i - 1];
      } else {
        assert tail[j - 1] in tail;
      }
    }
  }

  /** Reordering rows never makes two of them share a key. */
  lemma {:induction false} SortKeepsDistinct<T(!new), K>(s: seq<T>, score: T -> real, keyOf: T -> K)
    requires DistinctBy(s, keyOf)
    ensures DistinctBy(SortDesc(s, score), keyOf)
  {
    if s != [] {
      SortKeepsDistinct(s[1..], score, keyOf);
      var r := SortDesc(s[1..], score);
      forall y | y in r
        ensures keyOf(y) != keyOf(s[0])
      {
        assert y in multiset(r);
        var j :| 1 <= j < |s| && s[j] == y;
      }
      InsertKeepsDistinct(s[0], r, score, keyOf);
    }
  }

  /** `groupby(key).agg(...)`: one row per key, made from that key's group. */
  function Aggregate<T(!new), K(==,!new), R>(s: seq<T>, key: T -> Option<K>, summarise: (K, seq<T>) --> R): (t: seq<R>)
    requires forall k, g :: |g| > 0 ==> summarise.requires(k, g)
  {
    var ks := Keys(s, key);
    seq(|ks|, i requires 0 <= i < |ks| => summarise(ks[i], Group(s, key, ks[i])))
  }

  /**
   * Grouping and summarising gives one row per non-null key with a
   * non-empty group, no two with the same key, each the summary of its group.
   */
  lemma AggregateRows<T(!new), K(!new), R(!new)>(
    s: seq<T>, key: T -> Option<K>, summarise: (K, seq<T>) --> R, keyOf: R -> K)
    requires forall k, g :: |g| > 0 ==> summarise.requires(k, g)
    requires forall k, g :: |g| > 0 ==> keyOf(summarise(k, g)) == k
    ensures var t := Aggregate(s, key, summarise);
      && DistinctBy(t, keyOf)
      && (forall k :: |Group(s, key, k)| > 0 ==> summarise(k, Group(s, key, k)) in t)
      && (forall r :: r in t ==> |Group(s, key, keyOf(r))| > 0 && r == summarise(keyOf(r), Group(s, key, keyOf(r))))
  {
    var ks := Keys(s, key);
    var t := Aggregate(s, key, summarise);
    assert forall i :: 0 <= i < |t| ==> keyOf(t[i]) == ks[i];
    forall r | r in t
      ensures |Group(s, key, keyOf(r))| > 0 && r == summarise(keyOf(r), Group(s, key, keyOf(r)))
    {
      var i :| 0 <= i < |t| && t[i] == r;
      assert ks[i] in ks;
    }
    forall k | |Group(s, key, k)| > 0
      ensures summarise(k, Group(s, key, k)) in t
    {
      var i :| 0 <= i < |ks| && ks[i] == k;
      assert t[i] == summarise(k, Group(s, key, k));
    }
  }

  /**
   * Grouping, summarising and sorting by a score gives, for every non-null key
   * with a non-empty group, exactly one row; that row is the summary of the
   * group; and the rows come by non-increasing score.
   */
  lemma AggregateSorted<T(!new), K(!new), R(!new)>(
    s: seq<T>, key: T -> Option<K>, summarise: (K, seq<T>) --> R, keyOf: R -> K, score: R -> real)
    requires forall k, g :: |g| > 0 ==> summarise.requires(k, g)
    requires forall k, g :: |g| > 0 ==> keyOf(summarise(k, g)) == k
    ensures var out := SortDesc(Aggregate(s, key, summarise), score);
      && NonIncreasing(out, score)
      && DistinctBy(out, keyOf)
      && (forall k :: (exists r :: r in out && keyOf(r) == k) <==> |Group(s, key, k)| > 0)
      && (forall r :: r in out ==> |Group(s, key, keyOf(r))| > 0 && r == summarise(keyOf(r), Group(s, key, keyOf(r))))
  {
    var t := Aggregate(s, key, summarise);
    var out := SortDesc(t, score);
    AggregateRows(s, key, summarise, keyOf);
    SortKeepsDistinct(t, score, keyOf);
    forall r | r in out
      ensures r in t
    {
      assert r in multiset(out);
    }
    forall k | |Group(s, key, k)| > 0
      ensures exists r :: r in out && keyOf(r) == k
    {
      var r := summarise(k, Group(s, key, k));
      assert r in multiset(t);
      assert r in out;
    }
  }
}
