/**
 The lazily sorted sample store of client/accum.cc.  `std::sort` is the function `Sorted`.
 Ranks are computed over the reals; percentages are fractions in (0, 1].  Nothing depends on the
 samples being unsigned, so the coordinator's signed samples use the same functions.
 */
module Accumulators {
  import opened Common

  function Insert(x: int, s: seq<int>): seq<int> {
    if s == [] || x <= s[0] then [x] + s else [s[0]] + Insert(x, s[1..])
  }

  /** What `std::sort` leaves behind. */
  function Sorted(s: seq<int>): seq<int> {
    if s == [] then [] else Insert(s[0], Sorted(s[1..]))
  }

  predicate IsSorted(s: seq<int>) {
    forall i, j :: 0 <= i < j < |s| ==> s[i] <= s[j]
  }

  lemma ConsSorted(x: int, s: seq<int>)
    requires IsSorted(s) && forall y <- s :: x <= y
    ensures IsSorted([x] + s)
  {
    forall i, j | 0 <= i < j < |s| + 1
      ensures ([x] + s)[i] <= ([x] + s)[j]
    {
      assert ([x] + s)[j] == s[j - 1] && s[j - 1] in s;
    }
  }

  lemma {:induction false} InsertPermutes(x: int, s: seq<int>)
    ensures multiset(Insert(x, s)) == multiset(s) + multiset{x} && |Insert(x, s)| == |s| + 1
    decreases |s|
  {
    if s != [] && x > s[0] {
      InsertPermutes(x, s[1..]);
      assert s == [s[0]] + s[1..];
    }
  }

  lemma {:induction false} InsertSorts(x: int, s: seq<int>)
    requires IsSorted(s)
    ensures IsSorted(Insert(x, s))
    decreases |s|
  {
    if s == [] || x <= s[0] {
      ConsSorted(x, s);
    } else {
      InsertSorts(x, s[1..]);
      InsertPermutes(x, s[1..]);
      var r := Insert(x, s[1..]);
      forall y | y in r
        ensures s[0] <= y
      {
        assert y in multiset(r);
      }
      ConsSorted(s[0], r);
    }
  }

  lemma {:induction false} SortedSorts(s: seq<int>)
    ensures IsSorted(Sorted(s)) && multiset(Sorted(s)) == multiset(s) && |Sorted(s)| == |s|
    decreases |s|
  {
    if s != [] {
      SortedSorts(s[1..]);
      InsertSorts(s[0], Sorted(s[1..]));
      InsertPermutes(s[0], Sorted(s[1..]));
      assert s == [s[0]] + s[1..];
    }
  }

  /** How many samples are at most `v`. */
  function CountAtMost(s: seq<int>, v: int): nat {
    if s == [] then 0 else (if s[0] <= v then 1 else 0) + CountAtMost(s[1..], v)
  }

  function WithoutFirst(s: seq<int>, x: int): (r: seq<int>)
    requires x in s
    ensures |r| == |s| - 1
  {
    if s[0] == x then s[1..] else [s[0]] + WithoutFirst(s[1..], x)
  }

  lemma {:induction false} CountWithoutFirst(s: seq<int>, x: int, v: int)
    requires x in s
    ensures multiset(s) == multiset{x} + multiset(WithoutFirst(s, x))
    ensures CountAtMost(s, v) == CountAtMost(WithoutFirst(s, x), v) + if x <= v then 1 else 0
    decreases |s|
  {
    assert s == [s[0]] + s[1..];
    if s[0] != x {
      CountWithoutFirst(s[1..], x, v);
      assert WithoutFirst(s, x)[1..] == WithoutFirst(s[1..], x);
    }
  }

  /** The order of the samples does not matter to a count. */
  lemma {:induction false} CountIsOfMultiset(s: seq<int>, t: seq<int>, v: int)
    requires multiset(s) == multiset(t)
    ensures CountAtMost(s, v) == CountAtMost(t, v)
    decreases |s|
  {
    if s == [] {
      assert |multiset(t)| == 0;
    } else {
      assert s == [s[0]] + s[1..];
      assert s[0] in multiset(t);
      CountWithoutFirst(t, s[0], v);
      var w := WithoutFirst(t, s[0]);
      assert multiset(s) == multiset{s[0]} + multiset(s[1..]);
      assert multiset(s[1..]) == multiset(t) - multiset{s[0]} == multiset(w);
      CountIsOfMultiset(s[1..], WithoutFirst(t, s[0]), v);
    }
  }

  /** In a sorted list, position `k` splits the samples at most its value from those above. */
  lemma {:induction false} CountInSorted(s: seq<int>, k: nat, v: int)
    requires IsSorted(s) && k < |s|
    ensures v >= s[k] ==> CountAtMost(s, v) >= k + 1
    ensures v < s[k] ==> CountAtMost(s, v) <= k
    decreases |s|
  {
    if k == 0 {
      if v < s[0] {
        NoneAtMost(s, v);
      }
    } else {
      CountInSorted(s[1..], k - 1, v);
    }
  }

  lemma NoneAtMost(s: seq<int>, v: int)
    requires forall i :: 0 <= i < |s| ==> s[i] > v
    ensures CountAtMost(s, v) == 0
  {
    if s != [] {
      NoneAtMost(s[1..], v);
    }
  }

  /** `v` is the smallest sample with at least `t` samples at or below it. */
  ghost predicate IsSmallestReaching(v: int, s: seq<int>, t: real) {
    && v in s
    && CountAtMost(s, v) as real >= t
    && forall u <- s :: CountAtMost(s, u) as real >= t ==> v <= u
  }

  function Part(p: real, n: nat): real {
    p * n as real
  }

  /** The smallest sample with at least the fraction `p` of all samples at or below it. */
  ghost predicate IsNearestRank(v: int, s: seq<int>, p: real) {
    IsSmallestReaching(v, s, Part(p, |s|))
  }

  function Rank(p: real, n: nat): (i: nat)
    requires 0.0 < p <= 1.0 && n > 0
    ensures i < n
    ensures i as real < p * n as real <= (i + 1) as real
  {
    assert p * n as real <= n as real;
    Ceil(n as real * p) - 1
  }

  /** A count reaches the fraction exactly when it exceeds the rank. */
  lemma RankThreshold(p: real, n: nat, c: nat)
    requires 0.0 < p <= 1.0 && n > 0
    ensures c as real >= Part(p, n) <==> c > Rank(p, n)
  {
  }

  /** Position `k` of the sorted samples, without the fraction. */
  lemma SortedIsSmallest(s: seq<int>, k: nat)
    requires k < |s|
    ensures |Sorted(s)| == |s|
    ensures var v := Sorted(s)[k];
            v in s && CountAtMost(s, v) > k && forall u :: CountAtMost(s, u) > k ==> v <= u
  {
    SortedSorts(s);
    var t := Sorted(s);
    assert t[k] in multiset(t);
    SortedSplits(s, t, k, t[k]);
    forall u | CountAtMost(s, u) > k
      ensures t[k] <= u
    {
      SortedSplits(s, t, k, u);
    }
  }

  lemma RankIsNearest(s: seq<int>, p: real)
    requires s != [] && 0.0 < p <= 1.0
    ensures |Sorted(s)| == |s| && IsNearestRank(Sorted(s)[Rank(p, |s|)], s, p)
  {
    var k, t := Rank(p, |s|), Part(p, |s|);
    SortedIsSmallest(s, k);
    forall u: int
      ensures CountAtMost(s, u) as real >= t <==> CountAtMost(s, u) > k
    {
      RankThreshold(p, |s|, CountAtMost(s, u));
    }
  }

  lemma SortedSplits(s: seq<int>, t: seq<int>, k: nat, u: int)
    requires IsSorted(t) && multiset(s) == multiset(t) && k < |t|
    ensures if u >= t[k] then CountAtMost(s, u) >= k + 1 else CountAtMost(s, u) <= k
  {
    CountInSorted(t, k, u);
    CountIsOfMultiset(s, t, u);
  }

  /** A nearest rank is unique, and grows with the fraction asked for. */
  lemma NearestRankIsMonotone(s: seq<int>, v: int, p: real, w: int, q: real)
    requires 0.0 < p <= q <= 1.0 && IsNearestRank(v, s, p) && IsNearestRank(w, s, q)
    ensures v <= w && (p == q ==> v == w)
  {
    var t, u := Part(p, |s|), Part(q, |s|);
    PartGrows(p, q, |s|);
    HigherIsLater(s, v, t, w, u);
  }

  lemma HigherIsLater(s: seq<int>, v: int, t: real, w: int, u: real)
    requires t <= u && IsSmallestReaching(v, s, t) && IsSmallestReaching(w, s, u)
    ensures v <= w && (t == u ==> v == w)
  {
  }

  /** Counts are whole numbers, so a nearest rank reaches the next whole number as well. */
  lemma ReachesRank(s: seq<int>, v: int, p: real)
    requires s != [] && 0.0 < p <= 1.0 && IsNearestRank(v, s, p)
    ensures IsSmallestReaching(v, s, (Rank(p, |s|) + 1) as real)
  {
    RankThreshold(p, |s|, CountAtMost(s, v));
    forall u | u in s && CountAtMost(s, u) as real >= (Rank(p, |s|) + 1) as real
      ensures v <= u
    {
      RankThreshold(p, |s|, CountAtMost(s, u));
    }
  }

  lemma PartGrows(p: real, q: real, n: nat)
    requires p <= q
    ensures Part(p, n) <= Part(q, n)
  {
    var d := q - p;
    assert d * n as real >= 0.0;
    assert (p + d) * n as real == p * n as real + d * n as real;
  }

  class Accum {
    var samples: seq<int>
    var sorted: bool

    ghost predicate Valid()
      reads this
    {
      sorted ==> IsSorted(samples)
    }

    constructor ()
      ensures Valid() && samples == [] && !sorted
    {
      samples, sorted := [], false;
    }

    method Clear()
      modifies this
      ensures Valid() && samples == [] && !sorted
    {
      samples, sorted := [], false;
    }

    method AddSample(val: int)
      modifies this
      ensures Valid() && samples == old(samples) + [val] && !sorted
    {
      samples, sorted := samples + [val], false;
    }

    /** The `if (not sorted_)` block that every query starts with. */
    method EnsureSorted()
      requires Valid()
      modifies this
      ensures Valid() && sorted && samples == Sorted(old(samples))
      ensures multiset(samples) == multiset(old(samples)) && |samples| == |old(samples)|
    {
      SortedSorts(samples);
      if sorted {
        SortedIsIdentity(samples);
      } else {
        samples, sorted := Sorted(samples), true;
      }
    }

    method Percentile(percent: real) returns (v: int)
      requires Valid() && samples != [] && 0.0 < percent <= 1.0
      modifies this
      ensures Valid() && sorted && multiset(samples) == multiset(old(samples))
      ensures IsNearestRank(v, old(samples), percent)
    {
      RankIsNearest(samples, percent);
      EnsureSorted();
      v := samples[Rank(percent, |samples|)];
    }

    method Min() returns (v: int)
      requires Valid() && samples != []
      modifies this
      ensures Valid() && sorted && multiset(samples) == multiset(old(samples))
      ensures v in old(samples) && forall u <- old(samples) :: v <= u
    {
      EnsureSorted();
      v := samples[0];
      assert v in multiset(old(samples));
      forall u | u in old(samples)
        ensures v <= u
      {
        assert u in multiset(samples);
      }
    }

    method Max() returns (v: int)
      requires Valid() && samples != []
      modifies this
      ensures Valid() && sorted && multiset(samples) == multiset(old(samples))
      ensures v in old(samples) && forall u <- old(samples) :: u <= v
    {
      EnsureSorted();
      v := samples[|samples| - 1];
      assert v in multiset(old(samples));
      forall u | u in old(samples)
        ensures u <= v
      {
        assert u in multiset(samples);
      }
    }
  }

  lemma {:induction false} SortedIsIdentity(s: seq<int>)
    requires IsSorted(s)
    ensures Sorted(s) == s
    decreases |s|
  {
    if s != [] {
      SortedIsIdentity(s[1..]);
    }
  }

  /** Nearest ranks lie between the minimum and the maximum; the fraction 1 is the maximum. */
  lemma NearestRankIsBounded(s: seq<int>, v: int, p: real, lo: int, hi: int)
    requires IsNearestRank(v, s, p) && 0.0 < p <= 1.0
    requires forall u <- s :: lo <= u <= hi
    requires hi in s
    ensures lo <= v <= hi && (p == 1.0 ==> v == hi)
  {
    if p == 1.0 && v < hi {
      CountWithoutFirst(s, hi, v);
      CountIsBounded(WithoutFirst(s, hi), v);
    }
  }

  lemma CountIsBounded(s: seq<int>, v: int)
    ensures CountAtMost(s, v) <= |s|
  {
  }
}
