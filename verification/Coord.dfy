/**
 The coordinator of scripts/coord.go: it splits one experiment over several generators and
 merges their results in whatever order they come back.
 */
module Coordinator {
  import opened Common
  import opened Accumulators

  datatype Cfg = Cfg(samples: nat, reqsPerSec: nat, conns: nat,
                     timePad: nat, mode: string, dist: string, host: string, serviceTime: nat)

  datatype Reply = Reply(offered: nat, measured: real, samples: seq<int>)

  function Sum(s: seq<nat>): nat {
    if s == [] then 0 else Sum(s[..|s| - 1]) + s[|s| - 1]
  }

  /** What generator `i` of `cnt` gets of `total`: the remainder goes to the first ones. */
  function Share(total: nat, cnt: nat, i: nat): nat
    requires cnt > 0
  {
    total / cnt + if i < total % cnt then 1 else 0
  }

  function SplitCfg(c: Cfg, cnt: nat): (cfgs: seq<Cfg>)
    requires cnt > 0
    ensures |cfgs| == cnt
  {
    seq(cnt, i requires 0 <= i < cnt => c.(
      samples := Share(c.samples, cnt, i), reqsPerSec := Share(c.reqsPerSec, cnt, i), conns := Share(c.conns, cnt, i)))
  }

  lemma {:induction false} SharesSum(s: seq<nat>, total: nat, cnt: nat)
    requires cnt > 0 && |s| <= cnt && forall i :: 0 <= i < |s| ==> s[i] == Share(total, cnt, i)
    ensures Sum(s) == |s| * (total / cnt) + if |s| < total % cnt then |s| else total % cnt
    decreases |s|
  {
    if s != [] {
      var before := s[..|s| - 1];
      SharesSum(before, total, cnt);
      assert |s| * (total / cnt) == |before| * (total / cnt) + total / cnt;
    }
  }

  function Samples(cfgs: seq<Cfg>): seq<nat> {
    seq(|cfgs|, i requires 0 <= i < |cfgs| => cfgs[i].samples)
  }

  function Rates(cfgs: seq<Cfg>): seq<nat> {
    seq(|cfgs|, i requires 0 <= i < |cfgs| => cfgs[i].reqsPerSec)
  }

  function Conns(cfgs: seq<Cfg>): seq<nat> {
    seq(|cfgs|, i requires 0 <= i < |cfgs| => cfgs[i].conns)
  }

  /** The shares add up to the whole, no two differ by more than one, and the larger ones come first. */
  ghost predicate Splits(s: seq<nat>, total: nat) {
    && Sum(s) == total
    && forall i, j :: 0 <= i <= j < |s| ==> s[j] <= s[i] <= s[j] + 1
  }

  lemma SharesSplit(s: seq<nat>, total: nat, cnt: nat)
    requires cnt > 0 && |s| == cnt && forall i :: 0 <= i < |s| ==> s[i] == Share(total, cnt, i)
    ensures Splits(s, total)
  {
    SharesSum(s, total, cnt);
    assert cnt * (total / cnt) + total % cnt == total;
  }

  /** Splitting conserves the work, and nothing else about a share differs from the whole. */
  lemma SplitConserves(c: Cfg, cnt: nat)
    requires cnt > 0
    ensures Splits(Samples(SplitCfg(c, cnt)), c.samples)
    ensures Splits(Rates(SplitCfg(c, cnt)), c.reqsPerSec)
    ensures Splits(Conns(SplitCfg(c, cnt)), c.conns)
    ensures forall i :: 0 <= i < cnt ==>
              SplitCfg(c, cnt)[i].(samples := c.samples, reqsPerSec := c.reqsPerSec, conns := c.conns) == c
  {
    SharesSplit(Samples(SplitCfg(c, cnt)), c.samples, cnt);
    SharesSplit(Rates(SplitCfg(c, cnt)), c.reqsPerSec, cnt);
    SharesSplit(Conns(SplitCfg(c, cnt)), c.conns, cnt);
  }

  method DivCfg(c: Cfg, cnt: nat) returns (cfgs: seq<Cfg>)
    requires cnt > 0
    ensures cfgs == SplitCfg(c, cnt)
  {
    var split := c.(samples := c.samples / cnt, reqsPerSec := c.reqsPerSec / cnt, conns := c.conns / cnt);
    cfgs := [];
    for i := 0 to cnt
      invariant cfgs == SplitCfg(c, cnt)[..i]
    {
      var d := split;
      if i < c.samples % cnt {
        d := d.(samples := d.samples + 1);
      }
      if i < c.reqsPerSec % cnt {
        d := d.(reqsPerSec := d.reqsPerSec + 1);
      }
      if i < c.conns % cnt {
        d := d.(conns := d.conns + 1);
      }
      cfgs := cfgs + [d];
    }
  }

  // ---------- Merging ----------

  /** What a collection of parts amounts to, regardless of order. */
  datatype Merged = Merged(offered: nat, measured: real, samples: multiset<int>)

  function Add(m: Merged, p: Reply): Merged {
    Merged(m.offered + p.offered, m.measured + p.measured, m.samples + multiset(p.samples))
  }

  function Merge(parts: seq<Reply>): Merged {
    if parts == [] then Merged(0, 0.0, multiset{}) else Add(Merge(parts[..|parts| - 1]), parts[|parts| - 1])
  }

  lemma AddSwaps(m: Merged, p: Reply, q: Reply)
    ensures Add(Add(m, p), q) == Add(Add(m, q), p)
  {
  }

  lemma MergeSnoc(parts: seq<Reply>, p: Reply)
    ensures Merge(parts + [p]) == Add(Merge(parts), p)
  {
    assert (parts + [p])[..|parts|] == parts;
  }

  lemma {:induction false} MergeMoves(front: seq<Reply>, p: Reply, back: seq<Reply>)
    ensures Merge(front + [p] + back) == Add(Merge(front + back), p)
    decreases |back|
  {
    if back == [] {
      MergeSnoc(front, p);
      assert front + [p] + [] == front + [p] && front + [] == front;
    } else {
      var n := |back| - 1;
      MergeMoves(front, p, back[..n]);
      MergeSnoc(front + [p] + back[..n], back[n]);
      MergeSnoc(front + back[..n], back[n]);
      AddSwaps(Merge(front + back[..n]), p, back[n]);
      assert front + [p] + back == front + [p] + back[..n] + [back[n]];
      assert front + back == front + back[..n] + [back[n]];
    }
  }

  /** The order of arrival does not matter. */
  lemma {:induction false} MergeIsOfMultiset(a: seq<Reply>, b: seq<Reply>)
    requires multiset(a) == multiset(b)
    ensures Merge(a) == Merge(b)
    decreases |a|
  {
    if a == [] {
      EmptyMultiset(b);
    } else {
      var k := FindLast(a, b);
      MergeIsOfMultiset(a[..|a| - 1], b[..k] + b[k + 1..]);
      MergeMoves(b[..k], b[k], b[k + 1..]);
    }
  }

  /** `results[i]` is what generator `i` returns: its own rate, and exactly the samples asked for. */
  ghost predicate Answers(results: seq<Reply>, cfgs: seq<Cfg>) {
    && |results| == |cfgs|
    && forall i :: 0 <= i < |cfgs| ==>
         results[i].offered == cfgs[i].reqsPerSec && |results[i].samples| == cfgs[i].samples
  }

  lemma {:induction false} MergeOfAnswers(results: seq<Reply>, cfgs: seq<Cfg>)
    requires Answers(results, cfgs)
    ensures Merge(results).offered == Sum(Rates(cfgs)) && |Merge(results).samples| == Sum(Samples(cfgs))
    decreases |results|
  {
    if results != [] {
      var n := |results| - 1;
      MergeOfAnswers(results[..n], cfgs[..n]);
      assert Rates(cfgs)[..n] == Rates(cfgs[..n]) && Samples(cfgs)[..n] == Samples(cfgs[..n]);
    }
  }

  function Flat(parts: seq<Reply>): seq<int> {
    if parts == [] then [] else Flat(parts[..|parts| - 1]) + parts[|parts| - 1].samples
  }

  function TotalRate(rates: seq<real>): real {
    if rates == [] then 0.0 else TotalRate(rates[..|rates| - 1]) + rates[|rates| - 1]
  }

  function MeasuredRates(parts: seq<Reply>): (r: seq<real>)
    ensures |r| == |parts|
  {
    seq(|parts|, i requires 0 <= i < |parts| => parts[i].measured)
  }

  function OfferedRates(parts: seq<Reply>): (r: seq<nat>)
    ensures |r| == |parts|
  {
    seq(|parts|, i requires 0 <= i < |parts| => parts[i].offered)
  }

  /** What is merged is every sample of every part, and both sums of the rates. */
  lemma {:induction false} MergeIsEverything(parts: seq<Reply>)
    ensures Merge(parts).samples == multiset(Flat(parts))
    ensures Merge(parts).measured == TotalRate(MeasuredRates(parts))
    ensures Merge(parts).offered == Sum(OfferedRates(parts))
    decreases |parts|
  {
    if parts != [] {
      var n := |parts| - 1;
      MergeIsEverything(parts[..n]);
      assert MeasuredRates(parts)[..n] == MeasuredRates(parts[..n]);
      assert OfferedRates(parts)[..n] == OfferedRates(parts[..n]);
    }
  }

  class Result {
    var offered: nat
    var measured: real
    var samples: seq<int>

    constructor ()
      ensures Value() == Reply(0, 0.0, [])
    {
      offered, measured, samples := 0, 0.0, [];
    }

    function Value(): Reply
      reads this
    {
      Reply(offered, measured, samples)
    }

    method Accum(a: Reply)
      modifies this
      ensures Value() == Reply(old(offered) + a.offered, old(measured) + a.measured, old(samples) + a.samples)
    {
      offered := offered + a.offered;
      measured := measured + a.measured;
      samples := samples + a.samples;
    }

    /** Sorts the samples if they are not sorted yet, and truncates the rank towards zero. */
    method Percentile(frac: real) returns (v: int)
      requires samples != [] && 0.0 <= frac <= 1.0
      modifies `samples
      ensures IsSorted(samples) && multiset(samples) == multiset(old(samples))
      ensures IsSmallestReaching(v, old(samples), (LowRank(frac, |old(samples)|) + 1) as real)
      ensures frac == 0.0 ==> forall u <- old(samples) :: v <= u
      ensures frac == 1.0 ==> forall u <- old(samples) :: u <= v
    {
      SortedSorts(samples);
      ReachesPosition(samples, LowRank(frac, |samples|));
      Extremes(samples, Sorted(samples));
      SortOnce();
      v := samples[LowRank(frac, |samples|)];
    }

    method SortOnce()
      modifies `samples
      ensures samples == Sorted(old(samples))
    {
      if !IsSorted(samples) {
        samples := Sorted(samples);
      } else {
        SortedIsIdentity(samples);
      }
    }
  }

  lemma Extremes(s: seq<int>, t: seq<int>)
    requires s != [] && IsSorted(t) && multiset(s) == multiset(t)
    ensures |t| == |s| && forall u <- s :: t[0] <= u <= t[|s| - 1]
  {
    assert |multiset(s)| == |multiset(t)|;
    forall u <- s
      ensures t[0] <= u <= t[|s| - 1]
    {
      assert u in multiset(t);
    }
  }

  lemma ReachesPosition(s: seq<int>, k: nat)
    requires k < |s|
    ensures |Sorted(s)| == |s| && IsSmallestReaching(Sorted(s)[k], s, (k + 1) as real)
  {
    SortedIsSmallest(s, k);
  }

  lemma PartOf(frac: real, m: real)
    requires 0.0 <= frac <= 1.0 && m >= 0.0
    ensures 0.0 <= frac * m <= m
  {
    assert (1.0 - frac) * m >= 0.0;
  }

  /** The fraction of the way from the first to the last position, truncated. */
  function LowRank(frac: real, n: nat): (i: nat)
    requires 0.0 <= frac <= 1.0 && n > 0
    ensures i < n && (frac == 0.0 ==> i == 0) && (frac == 1.0 ==> i == n - 1)
  {
    PartOf(frac, (n - 1) as real);
    (frac * (n - 1) as real).Floor
  }

  lemma RanksAreClose(p: real, n: nat)
    requires 0.0 < p <= 1.0 && n > 0
    ensures LowRank(p, n) <= Rank(p, n) <= LowRank(p, n) + 1
  {
    var x, y := p * n as real, p * (n - 1) as real;
    assert n as real == (n - 1) as real + 1.0;
    assert x == y + p;
  }

  /** The two programs disagree about percentiles, but by one rank at the most, and the coordinator's
      figure is never the higher one. */
  lemma PercentilesAreClose(s: seq<int>, p: real, v: int, w: int)
    requires s != [] && 0.0 < p <= 1.0
    requires IsSmallestReaching(v, s, (LowRank(p, |s|) + 1) as real) && IsNearestRank(w, s, p)
    ensures LowRank(p, |s|) <= Rank(p, |s|) <= LowRank(p, |s|) + 1
    ensures v <= w
  {
    RanksAreClose(p, |s|);
    ReachesRank(s, w, p);
    HigherIsLater(s, v, (LowRank(p, |s|) + 1) as real, w, (Rank(p, |s|) + 1) as real);
  }

  /** The ranks are the same exactly if the way to the position is not cut short by more than the fraction
      leaves: a condition on the fraction and the number of samples alone. */
  lemma RanksAgreeIff(p: real, n: nat)
    requires 0.0 < p <= 1.0 && n > 0
    ensures LowRank(p, n) == Rank(p, n) <==>
            p * (n - 1) as real - (p * (n - 1) as real).Floor as real <= 1.0 - p
  {
    var x, y := p * n as real, p * (n - 1) as real;
    assert n as real == (n - 1) as real + 1.0;
    assert x == y + p;
  }

  /** Of two samples, the coordinator reports the lower as the 99th percentile and the client the higher. */
  lemma RanksDiffer()
    ensures LowRank(0.99, 2) == 0 && Rank(0.99, 2) == 1
    ensures Sorted([10, 20])[LowRank(0.99, 2)] == 10 && Sorted([10, 20])[Rank(0.99, 2)] == 20
  {
    RanksAreClose(0.99, 2);
    RanksAgreeIff(0.99, 2);
    assert [10, 20][1..] == [20] && [20][1..] == [];
    assert Sorted([20]) == [20];
    assert Sorted([10, 20]) == [10, 20];
  }

  /** One part, regardless of the order of its samples. */
  function Unordered(p: Reply): Merged {
    Merged(p.offered, p.measured, multiset(p.samples))
  }

  lemma OneMoreReply(arrivals: seq<Reply>, i: nat, p: Reply, q: Reply)
    requires i < |arrivals| && Unordered(p) == Merge(arrivals[..i])
    requires q == Reply(p.offered + arrivals[i].offered, p.measured + arrivals[i].measured,
                        p.samples + arrivals[i].samples)
    ensures Unordered(q) == Merge(arrivals[..i + 1])
  {
    assert arrivals[..i + 1] == arrivals[..i] + [arrivals[i]];
    MergeSnoc(arrivals[..i], arrivals[i]);
  }

  /** Collects the parts in order of arrival. */
  method Collect(arrivals: seq<Reply>) returns (r: Reply)
    ensures Unordered(r) == Merge(arrivals)
  {
    var acc := new Result();
    for i := 0 to |arrivals|
      invariant Unordered(acc.Value()) == Merge(arrivals[..i])
    {
      ghost var before := acc.Value();
      acc.Accum(arrivals[i]);
      OneMoreReply(arrivals, i, before, acc.Value());
    }
    assert arrivals[..|arrivals|] == arrivals;
    r := acc.Value();
  }

  /** Any arrival order gives the rate and the number of samples that were asked for, and every sample. */
  method Measure(c: Cfg, cnt: nat, ghost results: seq<Reply>, arrivals: seq<Reply>) returns (r: Reply)
    requires cnt > 0 && Answers(results, SplitCfg(c, cnt))
    requires multiset(arrivals) == multiset(results)
    ensures r.offered == c.reqsPerSec && |r.samples| == c.samples
    ensures multiset(r.samples) == multiset(Flat(results)) && r.measured == TotalRate(MeasuredRates(results))
  {
    var cfgs := DivCfg(c, cnt);
    r := Collect(arrivals);
    MergeIsOfMultiset(arrivals, results);
    MergeOfAnswers(results, cfgs);
    MergeIsEverything(results);
    SplitConserves(c, cnt);
    assert |multiset(r.samples)| == |r.samples|;
  }

  /** The offered rate of step `i`, in 64-bit unsigned arithmetic. */
  function StepRate(max: nat, i: nat, steps: nat): nat
    requires steps > 0
  {
    Wrap64(max * i) / steps
  }

  method DoExperiment(c: Cfg, cnt: nat, steps: nat, ghost results: seq<seq<Reply>>, arrivals: seq<seq<Reply>>)
    returns (rows: seq<Reply>)
    requires cnt > 0 && |results| == |arrivals| == steps
    requires forall i :: 0 <= i < steps ==> multiset(arrivals[i]) == multiset(results[i])
    requires forall i :: 0 <= i < steps ==>
               Answers(results[i], SplitCfg(c.(reqsPerSec := StepRate(c.reqsPerSec, i + 1, steps)), cnt))
    ensures |rows| == steps
    ensures forall i :: 0 <= i < steps ==>
              && rows[i].offered == StepRate(c.reqsPerSec, i + 1, steps)
              && |rows[i].samples| == c.samples
              && multiset(rows[i].samples) == multiset(Flat(results[i]))
              && rows[i].measured == TotalRate(MeasuredRates(results[i]))
  {
    var max := c.reqsPerSec;
    rows := [];
    for i := 1 to steps + 1
      invariant |rows| == i - 1
      invariant forall k :: 0 <= k < i - 1 ==>
              && rows[k].offered == StepRate(c.reqsPerSec, k + 1, steps)
              && |rows[k].samples| == c.samples
              && multiset(rows[k].samples) == multiset(Flat(results[k]))
              && rows[k].measured == TotalRate(MeasuredRates(results[k]))
    {
      var d := c.(reqsPerSec := Wrap64(max * i) / steps);
      assert d == c.(reqsPerSec := StepRate(c.reqsPerSec, i - 1 + 1, steps));
      var r := Measure(d, cnt, results[i - 1], arrivals[i - 1]);
      rows := rows + [r];
    }
  }

  /** With a rate and a step count that were parsed as 32-bit numbers the product does not wrap, the
      rates rise, and the last step offers the full rate. */
  lemma StepRatesRise(max: nat, i: nat, steps: nat)
    requires max < 0x1_0000_0000 && 0 < i <= steps < 0x1_0000_0000
    ensures StepRate(max, i, steps) == max * i / steps <= max
    ensures i < steps ==> StepRate(max, i, steps) <= StepRate(max, i + 1, steps)
    ensures StepRate(max, steps, steps) == max
  {
    NoWrap(max, i);
    NoWrap(max, steps);
    DivOfProduct(max, steps);
    Scale(i, steps, max);
    DivMonotone(max * i, max * steps, steps);
    if i < steps {
      NoWrap(max, i + 1);
      Scale(i, i + 1, max);
      DivMonotone(max * i, max * (i + 1), steps);
    }
  }

  lemma NoWrap(max: nat, i: nat)
    requires max < 0x1_0000_0000 && i < 0x1_0000_0000
    ensures Wrap64(max * i) == max * i
  {
    var p := max * i;
    Product(max, i, p);
    WrapShift(p, 0);
  }

  lemma Product(max: nat, i: nat, p: nat)
    requires max < 0x1_0000_0000 && i < 0x1_0000_0000 && p == max * i
    ensures p < TWO_64
  {
    Scale(i, 0x1_0000_0000, max);
  }

  lemma Scale(a: nat, b: nat, c: nat)
    requires a <= b
    ensures a * c <= b * c && c * a <= c * b
  {
    assert b * c - a * c == (b - a) * c;
  }

  lemma DivOfProduct(a: nat, d: nat)
    requires d > 0
    ensures a * d / d == a
  {
    var q := a * d / d;
    assert a * d == d * q + (a * d) % d;
    if q < a {
      Scale(q + 1, a, d);
    } else {
      Scale(a, q, d);
    }
  }

  lemma DivMonotone(a: nat, b: nat, d: nat)
    requires a <= b && d > 0
    ensures a / d <= b / d
  {
    assert a == d * (a / d) + a % d && b == d * (b / d) + b % d;
    if a / d > b / d {
      Scale(b / d + 1, a / d, d);
    }
  }
}
